/** Runs of requests to the display (canquick/mainprocess.cpp:241-343, canquick/rootedtreenode.cpp:406-425):
    what holds after any of them, and how long a mutex group remembers what was taken over. */
module DisplayRuns {
  import opened DisplayTree
  import opened Lists

  datatype Request = Show(x: nat) | Hide(x: nat)

  predicate Known(t: Tree, requests: seq<Request>) {
    forall k | 0 <= k < |requests| :: requests[k].x < |t.nodes|
  }

  /** A node is shown unless it is active already, and hidden unless it is not. */
  ghost function Handled(t: Tree, sem: seq<nat>, request: Request): (r: seq<nat>)
    requires Shape(t) && Counts(t, sem) && request.x < |sem|
    ensures Counts(t, r)
  {
    if request.Show? && sem[request.x] == 0 then Activated(t, sem, request.x)
    else if request.Hide? && sem[request.x] > 0 then Deactivated(t, sem, request.x)
    else sem
  }

  ghost function Ran(t: Tree, sem: seq<nat>, requests: seq<Request>): (r: seq<nat>)
    requires Shape(t) && Counts(t, sem) && Known(t, requests)
    ensures Counts(t, r)
    decreases |requests|
  {
    if requests == [] then sem else Ran(t, Handled(t, sem, requests[0]), requests[1..])
  }

  // ----- at most one active member, whatever is asked for -----

  ghost predicate Exclusive(t: Tree, sem: seq<nat>)
    requires Shape(t) && Counts(t, sem)
  {
    forall p: nat | p < |sem| && t.nodes[p].mutexGroup :: OneActive(t, sem, p)
  }

  lemma {:induction false} DeactivateLowers(t: Tree, sem: seq<nat>, x: nat, y: nat)
    requires Shape(t) && Counts(t, sem) && x < |sem| && y < |sem|
    ensures Deactivated(t, sem, x)[y] <= sem[y]
    decreases x
  {
    var p := Parent(t, x);
    if sem[x] > 0 && p != NONE && !t.nodes[p].modeGroup {
      DeactivateLowers(t, sem[x := sem[x] - 1], p, y);
    }
  }

  /** Of two siblings only one is on the way up from `x`. */
  lemma {:induction false} OneStep(t: Tree, x: nat, c: nat, d: nat)
    requires Shape(t) && x < |t.nodes| && c < |t.nodes| && d < |t.nodes| && Parent(t, c) == Parent(t, d)
    requires Counted(t, c, x) && Counted(t, d, x)
    ensures c == d
    decreases x
  {
    var q := Parent(t, x);
    if q != NONE {
      CountedIsAbove(t, c, q);
      CountedIsAbove(t, d, q);
      if c != x && d != x {
        OneStep(t, q, c, d);
      }
    }
  }

  /** If one is, all in their mutex group are cleared. */
  lemma {:induction false} WayIsSwept(t: Tree, x: nat, p: nat, c: nat, d: nat)
    requires Shape(t) && x < |t.nodes| && p < |t.nodes| && t.nodes[p].mutexGroup
    requires c < |t.nodes| && d < |t.nodes| && Parent(t, c) == p == Parent(t, d)
    ensures Counted(t, c, x) ==> Swept(t, c, x) && Swept(t, d, x)
    ensures Swept(t, c, x) <==> Swept(t, d, x)
    decreases x
  {
    var q := Parent(t, x);
    if q != NONE && !t.nodes[q].modeGroup {
      WayIsSwept(t, q, p, c, d);
    }
  }

  lemma HandledKeepsExclusive(t: Tree, sem: seq<nat>, request: Request)
    requires Shape(t) && Counts(t, sem) && request.x < |sem| && Exclusive(t, sem)
    ensures Exclusive(t, Handled(t, sem, request))
  {
    var s := Handled(t, sem, request);
    forall p: nat, c: nat, d: nat | p < |sem| && t.nodes[p].mutexGroup && c in t.children[p] && d in t.children[p] &&
      s[c] > 0 && s[d] > 0
      ensures c == d
    {
      assert OneActive(t, sem, p);
      if request.Show? && sem[request.x] == 0 {
        ActivateCounts(t, sem, request.x, c);
        ActivateCounts(t, sem, request.x, d);
        WayIsSwept(t, request.x, p, c, d);
        WayIsSwept(t, request.x, p, d, c);
        if Counted(t, c, request.x) && Counted(t, d, request.x) {
          OneStep(t, request.x, c, d);
        }
      } else {
        DeactivateLowers(t, sem, request.x, c);
        DeactivateLowers(t, sem, request.x, d);
      }
    }
  }

  /** No mutex group ever has two active members, in any tree and over any run. */
  lemma {:induction false} MutexGroupsAreExclusive(t: Tree, sem: seq<nat>, requests: seq<Request>)
    requires Shape(t) && Counts(t, sem) && Known(t, requests) && Exclusive(t, sem)
    ensures Exclusive(t, Ran(t, sem, requests))
    decreases |requests|
  {
    if requests != [] {
      HandledKeepsExclusive(t, sem, requests[0]);
      MutexGroupsAreExclusive(t, Handled(t, sem, requests[0]), requests[1..]);
    }
  }

  // ----- which runs keep the counts sound -----

  /** Nothing that counts for a member of a mutex group is shown, and nothing is hidden whose count is
      all due to its children. */
  ghost predicate MayHandle(t: Tree, sem: seq<nat>, request: Request)
    requires Shape(t) && Counts(t, sem) && request.x < |sem|
  {
    var x := request.x;
    if request.Show? then sem[x] > 0 || !Barred(t, x)
    else sem[x] == 0 || t.nodes[x].modeGroup || sem[x] > Sum(sem, t.children[x])
  }

  ghost predicate MayRun(t: Tree, sem: seq<nat>, requests: seq<Request>)
    requires Shape(t) && Counts(t, sem) && Known(t, requests)
    decreases |requests|
  {
    requests == [] ||
    (MayHandle(t, sem, requests[0]) && MayRun(t, Handled(t, sem, requests[0]), requests[1..]))
  }

  lemma HandleKeepsSoundExactlyWhen(t: Tree, sem: seq<nat>, request: Request)
    requires Sound(t, sem) && request.x < |sem|
    ensures Sound(t, Handled(t, sem, request)) <==> MayHandle(t, sem, request)
  {
    if request.Show? && sem[request.x] == 0 {
      ActivateKeepsSoundExactlyWhen(t, sem, request.x);
    } else if request.Hide? && sem[request.x] > 0 {
      DeactivateKeepsSoundExactlyWhen(t, sem, request.x);
    }
  }

  /** Showing a node that its children keep active is skipped, so hiding it afterwards takes away what they
      count for. */
  lemma SkippedShowIsHidden(t: Tree, sem: seq<nat>, x: nat)
    requires Sound(t, sem) && x < |sem| && !t.nodes[x].modeGroup && sem[x] == Sum(sem, t.children[x]) > 0
    ensures var s := Ran(t, sem, [Show(x), Hide(x)]);
      s[x] < Sum(s, t.children[x]) &&
      forall k | 0 <= k < |t.children[x]| :: s[t.children[x][k]] == sem[t.children[x][k]]
  {
    var s := Deactivated(t, sem, x);
    assert [Show(x), Hide(x)][1..] == [Hide(x)] && [Hide(x)][1..] == [];
    assert Ran(t, sem, [Show(x), Hide(x)]) == Ran(t, sem, [Hide(x)]) == s;
    DeactivateMoves(t, sem, x);
    forall k | 0 <= k < |t.children[x]|
      ensures s[t.children[x][k]] == sem[t.children[x][k]]
    {
      CountedIsAbove(t, Child(t, x, k), x);
    }
    SumOfOthers(sem, s, t.children[x]);
  }

  ghost predicate SoundAt(t: Tree, sem: seq<nat>, requests: seq<Request>, k: nat)
    requires Shape(t) && Counts(t, sem) && Known(t, requests) && k <= |requests|
  {
    Sound(t, Ran(t, sem, requests[..k]))
  }

  lemma OneStepLess(t: Tree, sem: seq<nat>, requests: seq<Request>, k: nat)
    requires Shape(t) && Counts(t, sem) && Known(t, requests) && k < |requests|
    ensures SoundAt(t, sem, requests, k + 1) <==> SoundAt(t, Handled(t, sem, requests[0]), requests[1..], k)
  {
    assert requests[..k + 1][1..] == requests[1..][..k];
  }

  /** The counts are sound all through a run exactly if each request may be handled when it comes. */
  lemma {:induction false} RunKeepsSoundExactlyWhen(t: Tree, sem: seq<nat>, requests: seq<Request>)
    requires Sound(t, sem) && Known(t, requests)
    ensures (forall k | 0 <= k <= |requests| :: SoundAt(t, sem, requests, k)) <==> MayRun(t, sem, requests)
    decreases |requests|
  {
    if requests != [] {
      var s, rest := Handled(t, sem, requests[0]), requests[1..];
      HandleKeepsSoundExactlyWhen(t, sem, requests[0]);
      forall k | 0 <= k < |requests|
        ensures SoundAt(t, sem, requests, k + 1) <==> SoundAt(t, s, rest, k)
      {
        OneStepLess(t, sem, requests, k);
      }
      assert SoundAt(t, s, rest, 0) <==> Sound(t, s);
      if Sound(t, s) {
        RunKeepsSoundExactlyWhen(t, s, rest);
        if MayRun(t, s, rest) {
          forall k | 0 <= k <= |requests|
            ensures SoundAt(t, sem, requests, k)
          {
            if k > 0 {
              assert SoundAt(t, s, rest, k - 1);
              OneStepLess(t, sem, requests, k - 1);
            }
          }
        } else {
          var k :| 0 <= k <= |rest| && !SoundAt(t, s, rest, k);
          assert !SoundAt(t, sem, requests, k + 1);
        }
      } else {
        assert !SoundAt(t, sem, requests, 0 + 1);
      }
    }
  }

  // ----- the part of a count that its children do not account for -----

  ghost function Excess(t: Tree, sem: seq<nat>, p: nat): int
    requires Shape(t) && Counts(t, sem) && p < |sem|
  {
    sem[p] - Sum(sem, t.children[p])
  }

  /** The child through which `x` counts for `p`. */
  lemma {:induction false} StepBelow(t: Tree, p: nat, x: nat) returns (c: nat)
    requires Shape(t) && x < |t.nodes| && Counted(t, p, x) && p != x
    ensures c < |t.nodes| && Parent(t, c) == p && Counted(t, c, x)
    decreases x
  {
    c := x;
    if Parent(t, x) != p {
      c := StepBelow(t, p, Parent(t, x));
    }
  }

  lemma {:induction false} CountedUp(t: Tree, c: nat, x: nat)
    requires Shape(t) && x < |t.nodes| && c < |t.nodes| && Counted(t, c, x)
    requires Parent(t, c) != NONE && !t.nodes[Parent(t, c)].modeGroup
    ensures Counted(t, Parent(t, c), x)
    decreases x
  {
    if c == x {
      assert Counted(t, Parent(t, x), Parent(t, x));
    } else {
      CountedUp(t, c, Parent(t, x));
    }
  }

  /** The children of a node that is not a mode group are cleared exactly if it is a mutex group on the way up. */
  lemma {:induction false} ChildrenAreSwept(t: Tree, x: nat, p: nat, c: nat)
    requires Shape(t) && x < |t.nodes| && c < |t.nodes| && Parent(t, c) == p && p < |t.nodes| && !t.nodes[p].modeGroup
    ensures Swept(t, c, x) <==> t.nodes[p].mutexGroup && Counted(t, p, x) && p != x
    decreases x
  {
    var q := Parent(t, x);
    if q != NONE && !t.nodes[q].modeGroup {
      ChildrenAreSwept(t, q, p, c);
      CountedIsAbove(t, p, q);
    }
  }

  lemma ChildOnTheWay(t: Tree, sem: seq<nat>, x: nat, p: nat, c: nat, d: nat)
    requires Shape(t) && Counts(t, sem) && x < |sem| && p < |sem| && !t.nodes[p].modeGroup && p != x
    requires c < |sem| && d < |sem| && Parent(t, c) == p == Parent(t, d) && Counted(t, c, x)
    ensures Activated(t, sem, x)[d] == (if t.nodes[p].mutexGroup then 0 else sem[d]) + if d == c then 1 else 0
  {
    ActivateCounts(t, sem, x, d);
    CountedUp(t, c, x);
    ChildrenAreSwept(t, x, p, d);
    if Counted(t, d, x) {
      OneStep(t, x, c, d);
    }
  }

  lemma ChildOffTheWay(t: Tree, sem: seq<nat>, x: nat, p: nat, d: nat)
    requires Shape(t) && Counts(t, sem) && x < |sem| && p < |sem| && !t.nodes[p].modeGroup
    requires (Counted(t, p, x) ==> p == x) && d < |sem| && Parent(t, d) == p
    ensures Activated(t, sem, x)[d] == sem[d]
  {
    ActivateCounts(t, sem, x, d);
    ChildrenAreSwept(t, x, p, d);
    CountedIsAbove(t, d, x);
    if Counted(t, d, x) {
      CountedUp(t, d, x);
    }
  }

  lemma {:induction false} SumOfOneMore(sem: seq<nat>, sem': seq<nat>, queue: seq<nat>, c: nat, gone: bool)
    requires |sem| == |sem'| && Within(queue, |sem|) && Distinct(queue)
    requires forall k | 0 <= k < |queue| ::
      sem'[queue[k]] == (if gone then 0 else sem[queue[k]]) + if queue[k] == c then 1 else 0
    ensures Sum(sem', queue) == (if gone then 0 else Sum(sem, queue)) + if c in queue then 1 else 0
  {
    if queue != [] {
      SumOfOneMore(sem, sem', queue[1..], c, gone);
      assert queue == [queue[0]] + queue[1..];
    }
  }

  /** A node on the way up from `x` gains one, and so do its children together, unless it is a mutex group,
      whose members are down to that one. */
  lemma ChildrenOnTheWay(t: Tree, sem: seq<nat>, x: nat, p: nat)
    requires Shape(t) && Counts(t, sem) && x < |sem| && p < |sem| && !t.nodes[p].modeGroup
    requires Counted(t, p, x) && p != x
    ensures Sum(Activated(t, sem, x), t.children[p]) ==
      (if t.nodes[p].mutexGroup then 0 else Sum(sem, t.children[p])) + 1
  {
    var s, gone := Activated(t, sem, x), t.nodes[p].mutexGroup;
    var c := StepBelow(t, p, x);
    var queue := t.children[p];
    forall k | 0 <= k < |queue|
      ensures s[queue[k]] == (if gone then 0 else sem[queue[k]]) + if queue[k] == c then 1 else 0
    {
      ChildOnTheWay(t, sem, x, p, c, Child(t, p, k));
    }
    assert c in queue;
    SumOfOneMore(sem, s, queue, c, gone);
  }

  lemma ChildrenOffTheWay(t: Tree, sem: seq<nat>, x: nat, p: nat)
    requires Shape(t) && Counts(t, sem) && x < |sem| && p < |sem| && !t.nodes[p].modeGroup
    requires Counted(t, p, x) ==> p == x
    ensures Sum(Activated(t, sem, x), t.children[p]) == Sum(sem, t.children[p])
  {
    forall k | 0 <= k < |t.children[p]|
      ensures Activated(t, sem, x)[t.children[p][k]] == sem[t.children[p][k]]
    {
      ChildOffTheWay(t, sem, x, p, Child(t, p, k));
    }
    SumOfOthers(sem, Activated(t, sem, x), t.children[p]);
  }

  /** What activation does to the excess, in any state: `x` gains one, a mutex group on the way up keeps what its
      members had, and a member of one that is cleared loses its own count. */
  lemma ActivateMovesExcess(t: Tree, sem: seq<nat>, x: nat, p: nat)
    requires Shape(t) && Counts(t, sem) && x < |sem| && p < |sem| && !t.nodes[p].modeGroup
    ensures Excess(t, Activated(t, sem, x), p) ==
      Excess(t, sem, p) - (if Swept(t, p, x) then sem[p] else 0) + (if p == x then 1 else 0) +
      if t.nodes[p].mutexGroup && Counted(t, p, x) && p != x then Sum(sem, t.children[p]) else 0
  {
    ActivateCounts(t, sem, x, p);
    if Counted(t, p, x) && p != x {
      ChildrenOnTheWay(t, sem, x, p);
    } else {
      ChildrenOffTheWay(t, sem, x, p);
    }
  }

  lemma {:induction false} OnlyMembersAreSwept(t: Tree, y: nat, x: nat)
    requires Shape(t) && x < |t.nodes| && y < |t.nodes| && !InMutexGroup(t, y)
    ensures !Swept(t, y, x)
    decreases x
  {
    if Parent(t, x) != NONE {
      OnlyMembersAreSwept(t, y, Parent(t, x));
    }
  }

  // ----- a show below a member -----

  lemma NoneBelowMember(t: Tree, sem: seq<nat>, c: nat)
    requires Sound(t, sem) && c < |sem| && InMutexGroup(t, c) && !t.nodes[c].modeGroup
    ensures Sum(sem, t.children[c]) == 0
  {
    forall k | 0 <= k < |t.children[c]|
      ensures sem[t.children[c][k]] == 0
    {
      assert BelowMember(t, Child(t, c, k));
      assert Steady(t, sem, Child(t, c, k));
    }
    SumOfNone(sem, t.children[c]);
  }

  /** From a sound state any show, even one that counts below a member, leaves every count covering its children. */
  lemma ShowKeepsCover(t: Tree, sem: seq<nat>, x: nat, p: nat)
    requires Sound(t, sem) && x < |sem| && p < |sem|
    ensures Covers(t, Activated(t, sem, x), p, 0)
  {
    assert Steady(t, sem, p);
    if !t.nodes[p].modeGroup {
      ActivateMovesExcess(t, sem, x, p);
      if InMutexGroup(t, p) {
        NoneBelowMember(t, sem, p);
      } else {
        OnlyMembersAreSwept(t, p, x);
      }
    }
  }

  /** It breaks when another member takes over: the member above `x` is cleared, and `x` is not. */
  lemma TakeoverUncoversBelow(t: Tree, sem: seq<nat>, x: nat, c: nat, d: nat)
    requires Shape(t) && Counts(t, sem) && x < |sem| && c < |sem| && d < |sem| && sem[x] > 0
    requires Parent(t, x) == c && !t.nodes[c].modeGroup && InMutexGroup(t, c) && Parent(t, d) == Parent(t, c) && c != d
    ensures !Covers(t, Activated(t, sem, d), c, 0)
  {
    ActivateCounts(t, sem, d, c);
    ActivateCounts(t, sem, d, x);
    if Counted(t, c, d) {
      OneStep(t, d, c, d);
    }
    SweptIsAbove(t, x, Parent(t, d));
    assert x in t.children[c];
    SumCovers(Activated(t, sem, d), t.children[c], x);
  }

  // ----- what deactivation does to it -----

  lemma {:induction false} DeactivateOnlyAbove(t: Tree, sem: seq<nat>, x: nat, y: nat)
    requires Shape(t) && Counts(t, sem) && x < y < |sem|
    ensures Deactivated(t, sem, x)[y] == sem[y]
    decreases x
  {
    var p := Parent(t, x);
    if sem[x] > 0 && p != NONE && !t.nodes[p].modeGroup {
      DeactivateOnlyAbove(t, sem[x := sem[x] - 1], p, y);
    }
  }

  lemma DeactivateLeavesBelow(t: Tree, sem: seq<nat>, x: nat, p: nat)
    requires Shape(t) && Counts(t, sem) && x < p < |sem|
    ensures Excess(t, Deactivated(t, sem, x), p) == Excess(t, sem, p)
  {
    DeactivateOnlyAbove(t, sem, x, p);
    forall k | 0 <= k < |t.children[p]|
      ensures Deactivated(t, sem, x)[t.children[p][k]] == sem[t.children[p][k]]
    {
      DeactivateOnlyAbove(t, sem, x, Child(t, p, k));
    }
    SumOfOthers(sem, Deactivated(t, sem, x), t.children[p]);
  }

  /** Deactivation from a child of `p` goes on at `p`, or stops there if nothing is left to take away. */
  lemma {:induction false} DeactivateMovesExcess(t: Tree, sem: seq<nat>, x: nat, p: nat)
    requires Shape(t) && Counts(t, sem) && x < |sem| && p < |sem| && !t.nodes[p].modeGroup
    ensures Excess(t, Deactivated(t, sem, x), p) >= Excess(t, sem, p) - if p == x && sem[x] > 0 then 1 else 0
    ensures p == x || Excess(t, sem, p) >= 0 ==>
      Excess(t, Deactivated(t, sem, x), p) == Excess(t, sem, p) - if p == x && sem[x] > 0 then 1 else 0
    decreases x
  {
    if sem[x] > 0 {
      var q, s := Parent(t, x), sem[x := sem[x] - 1];
      SumOfChange(sem, t.children[p], x, sem[x] - 1);
      assert x in t.children[p] <==> q == p;
      if q == p {
        SumCovers(sem, t.children[p], x);
      }
      if q != NONE && !t.nodes[q].modeGroup {
        if p == x {
          DeactivateLeavesBelow(t, s, q, p);
        } else {
          DeactivateMovesExcess(t, s, q, p);
        }
      }
    }
  }

  // ----- what a node has beyond its children, over runs -----

  function OwnRequest(sem: seq<nat>, request: Request, p: nat): int
    requires p < |sem|
  {
    if request == Show(p) && sem[p] == 0 then 1 else if request == Hide(p) && sem[p] > 0 then -1 else 0
  }

  /** How often `p` itself has been shown and not hidden again. */
  ghost function OwnRequests(t: Tree, sem: seq<nat>, requests: seq<Request>, p: nat): int
    requires Shape(t) && Counts(t, sem) && Known(t, requests) && p < |sem|
    decreases |requests|
  {
    if requests == [] then 0
    else
      OwnRequest(sem, requests[0], p) + OwnRequests(t, Handled(t, sem, requests[0]), requests[1..], p)
  }

  /** Whenever `p` itself is hidden, its count is more than its children need. */
  ghost predicate HidesAreCovered(t: Tree, sem: seq<nat>, requests: seq<Request>, p: nat)
    requires Shape(t) && Counts(t, sem) && Known(t, requests) && p < |sem|
    decreases |requests|
  {
    requests == [] ||
    ((requests[0] == Hide(p) && sem[p] > 0 ==> Excess(t, sem, p) > 0) &&
     HidesAreCovered(t, Handled(t, sem, requests[0]), requests[1..], p))
  }

  lemma HandledMovesExcess(t: Tree, sem: seq<nat>, request: Request, p: nat)
    requires Shape(t) && Counts(t, sem) && request.x < |sem|
    requires p < |sem| && !t.nodes[p].modeGroup && !InMutexGroup(t, p)
    ensures var own := OwnRequest(sem, request, p);
      var now := Excess(t, Handled(t, sem, request), p);
      now >= Excess(t, sem, p) + own &&
      (!t.nodes[p].mutexGroup && (own == -1 || Excess(t, sem, p) >= 0) ==> now == Excess(t, sem, p) + own)
  {
    if request.Show? && sem[request.x] == 0 {
      ActivateMovesExcess(t, sem, request.x, p);
      OnlyMembersAreSwept(t, p, request.x);
    } else if request.Hide? && sem[request.x] > 0 {
      DeactivateMovesExcess(t, sem, request.x, p);
    }
  }

  /** Over any run and from any state, what a node has beyond its children falls by its own requests only. */
  lemma {:induction false} ExcessIsAtLeastOwnRequests(t: Tree, sem: seq<nat>, requests: seq<Request>, p: nat)
    requires Shape(t) && Counts(t, sem) && Known(t, requests)
    requires p < |sem| && !t.nodes[p].modeGroup && !InMutexGroup(t, p)
    ensures Excess(t, Ran(t, sem, requests), p) >= Excess(t, sem, p) + OwnRequests(t, sem, requests, p)
    decreases |requests|
  {
    if requests != [] {
      HandledMovesExcess(t, sem, requests[0], p);
      ExcessIsAtLeastOwnRequests(t, Handled(t, sem, requests[0]), requests[1..], p);
    }
  }

  /** Outside mutex groups it is just that, if the node itself is only hidden while it has something of its own. */
  lemma {:induction false} ExcessIsOwnRequests(t: Tree, sem: seq<nat>, requests: seq<Request>, p: nat)
    requires Shape(t) && Counts(t, sem) && Known(t, requests)
    requires p < |sem| && !t.nodes[p].modeGroup && !InMutexGroup(t, p) && !t.nodes[p].mutexGroup
    requires Excess(t, sem, p) >= 0 && HidesAreCovered(t, sem, requests, p)
    ensures Excess(t, Ran(t, sem, requests), p) == Excess(t, sem, p) + OwnRequests(t, sem, requests, p)
    ensures Excess(t, Ran(t, sem, requests), p) >= 0
    decreases |requests|
  {
    if requests != [] {
      HandledMovesExcess(t, sem, requests[0], p);
      ExcessIsOwnRequests(t, Handled(t, sem, requests[0]), requests[1..], p);
    }
  }

  /** Otherwise it need not be: hide a node that only its child `c` keeps active, then the child, whose own
      deactivation has nothing left to take from it. */
  lemma UncoveredHideIsForgotten(t: Tree, sem: seq<nat>, x: nat, c: nat)
    requires Shape(t) && Counts(t, sem) && x < |sem| && c < |sem| && !t.nodes[x].modeGroup && t.children[x] == [c]
    requires sem[x] == 1 && sem[c] == 1
    ensures OwnRequests(t, sem, [Hide(x), Hide(c)], x) == -1
    ensures Excess(t, Ran(t, sem, [Hide(x), Hide(c)]), x) == Excess(t, sem, x) == 0
  {
    var s := Deactivated(t, sem, x);
    assert Child(t, x, 0) == c;
    DeactivateLosesOne(t, sem, x);
    DeactivateOnlyAbove(t, sem, x, c);
    var s' := s[c := s[c] - 1];
    assert s'[x] == 0 && Parent(t, c) == x && Deactivated(t, s', x) == s';
    assert Deactivated(t, s, c) == s';
    TwoHides(t, sem, x, c);
    OnlyChild(sem, c);
    OnlyChild(s', c);
  }

  lemma OnlyChild(sem: seq<nat>, c: nat)
    requires c < |sem|
    ensures Sum(sem, [c]) == sem[c]
  {
    assert [c][1..] == [];
  }

  lemma TwoHides(t: Tree, sem: seq<nat>, x: nat, c: nat)
    requires Shape(t) && Counts(t, sem) && x < |sem| && c < |sem| && x != c
    requires sem[x] > 0 && Deactivated(t, sem, x)[c] > 0
    ensures Ran(t, sem, [Hide(x), Hide(c)]) == Deactivated(t, Deactivated(t, sem, x), c)
    ensures OwnRequests(t, sem, [Hide(x), Hide(c)], x) == -1
  {
    var s := Deactivated(t, sem, x);
    assert [Hide(x), Hide(c)][1..] == [Hide(c)];
    assert [Hide(c)][1..] == [];
    assert Ran(t, s, [Hide(c)]) == Deactivated(t, s, c);
    assert OwnRequests(t, s, [Hide(c)], x) == 0;
  }

  lemma {:induction false} NoOwnRequests(t: Tree, sem: seq<nat>, requests: seq<Request>, p: nat)
    requires Shape(t) && Counts(t, sem) && Known(t, requests) && p < |sem| && Hide(p) !in requests
    ensures OwnRequests(t, sem, requests, p) >= 0 && HidesAreCovered(t, sem, requests, p)
    ensures Show(p) !in requests ==> OwnRequests(t, sem, requests, p) == 0
    decreases |requests|
  {
    if requests != [] {
      NoOwnRequests(t, Handled(t, sem, requests[0]), requests[1..], p);
    }
  }

  /** A node that is never asked for itself keeps exactly the sum of its children's counts, whatever else is asked
      for; mutex groups, their members and mode groups aside. */
  lemma GroupsAreExact(t: Tree, sem: seq<nat>, requests: seq<Request>, p: nat)
    requires Shape(t) && Counts(t, sem) && Known(t, requests)
    requires p < |sem| && !t.nodes[p].modeGroup && !InMutexGroup(t, p) && !t.nodes[p].mutexGroup
    requires Show(p) !in requests && Hide(p) !in requests && sem[p] == Sum(sem, t.children[p])
    ensures Ran(t, sem, requests)[p] == Sum(Ran(t, sem, requests), t.children[p])
  {
    NoOwnRequests(t, sem, requests, p);
    ExcessIsOwnRequests(t, sem, requests, p);
  }

  // ----- what a mutex group keeps -----

  /** Showing a member of a mutex group adds to the group what its members were counted for: it is left with more
      than its members account for, exactly if some member is active at the time. */
  lemma TakeoverKeepsExcessExactlyWhen(t: Tree, sem: seq<nat>, p: nat, x: nat)
    requires Shape(t) && Counts(t, sem) && p < |sem| && t.nodes[p].mutexGroup && !t.nodes[p].modeGroup
    requires x < |sem| && Parent(t, x) == p && !InMutexGroup(t, p)
    ensures Excess(t, Activated(t, sem, x), p) == Excess(t, sem, p) + Sum(sem, t.children[p])
    ensures Excess(t, Activated(t, sem, x), p) == Excess(t, sem, p) <==>
      forall k | 0 <= k < |t.children[p]| :: sem[t.children[p][k]] == 0
  {
    ActivateMovesExcess(t, sem, x, p);
    OnlyMembersAreSwept(t, p, x);
    CountedUp(t, x, x);
    if forall k | 0 <= k < |t.children[p]| :: sem[t.children[p][k]] == 0 {
      SumOfNone(sem, t.children[p]);
    } else {
      var k :| 0 <= k < |t.children[p]| && sem[t.children[p][k]] != 0;
      SumCovers(sem, t.children[p], t.children[p][k]);
    }
  }

  /** What a mutex group has gained it keeps over any run: as long as it is not hidden itself, it stays active
      whatever becomes of its members. */
  lemma ExcessIsForGood(t: Tree, sem: seq<nat>, requests: seq<Request>, p: nat)
    requires Shape(t) && Counts(t, sem) && Known(t, requests)
    requires p < |sem| && !t.nodes[p].modeGroup && !InMutexGroup(t, p) && Hide(p) !in requests
    ensures Excess(t, Ran(t, sem, requests), p) >= Excess(t, sem, p)
    ensures Excess(t, sem, p) > 0 ==> Ran(t, sem, requests)[p] > 0
  {
    ExcessIsAtLeastOwnRequests(t, sem, requests, p);
    NoOwnRequests(t, sem, requests, p);
  }

  lemma ShowMember(t: Tree, sem: seq<nat>, p: nat, x: nat)
    requires Shape(t) && Counts(t, sem) && p < |sem| && t.nodes[p].mutexGroup && !t.nodes[p].modeGroup
    requires x < |sem| && Parent(t, x) == p && !InMutexGroup(t, p)
    ensures Activated(t, sem, x)[p] == sem[p] + 1
    ensures forall k | 0 <= k < |t.children[p]| ::
      Activated(t, sem, x)[t.children[p][k]] == if t.children[p][k] == x then 1 else 0
  {
    ActivateCounts(t, sem, x, p);
    OnlyMembersAreSwept(t, p, x);
    CountedUp(t, x, x);
    forall k | 0 <= k < |t.children[p]|
      ensures Activated(t, sem, x)[t.children[p][k]] == if t.children[p][k] == x then 1 else 0
    {
      ChildOnTheWay(t, sem, x, p, x, Child(t, p, k));
    }
  }

  lemma DeactivateLosesOne(t: Tree, sem: seq<nat>, x: nat)
    requires Shape(t) && Counts(t, sem) && x < |sem| && sem[x] > 0
    ensures Deactivated(t, sem, x)[x] == sem[x] - 1
  {
    var p := Parent(t, x);
    if p != NONE && !t.nodes[p].modeGroup {
      DeactivateOnlyAbove(t, sem[x := sem[x] - 1], p, x);
    }
  }

  lemma HideMember(t: Tree, sem: seq<nat>, p: nat, x: nat)
    requires Shape(t) && Counts(t, sem) && p < |sem| && sem[p] > 0 && !t.nodes[p].modeGroup
    requires x < |sem| && Parent(t, x) == p && forall k | 0 <= k < |t.children[p]| ::
      sem[t.children[p][k]] == if t.children[p][k] == x then 1 else 0
    ensures Deactivated(t, sem, x)[p] == sem[p] - 1
    ensures forall k | 0 <= k < |t.children[p]| :: Deactivated(t, sem, x)[t.children[p][k]] == 0
  {
    assert x in t.children[p];
    var s := sem[x := 0];
    DeactivateLosesOne(t, s, p);
    forall k | 0 <= k < |t.children[p]|
      ensures Deactivated(t, sem, x)[t.children[p][k]] == 0
    {
      DeactivateOnlyAbove(t, s, p, Child(t, p, k));
    }
  }

  /** So showing `c`, then `d`, then hiding `d` leaves the group active with no active member, in any state. */
  lemma MutexGroupStaysActive(t: Tree, sem: seq<nat>, p: nat, c: nat, d: nat)
    requires Shape(t) && Counts(t, sem) && p < |sem| && t.nodes[p].mutexGroup && !t.nodes[p].modeGroup
    requires !InMutexGroup(t, p) && c < |sem| && d < |sem| && Parent(t, c) == p == Parent(t, d) && c != d
    requires sem[c] == 0
    ensures var s := Ran(t, sem, [Show(c), Show(d), Hide(d)]);
      s[p] == sem[p] + 1 && forall k | 0 <= k < |t.children[p]| :: s[t.children[p][k]] == 0
  {
    var s1 := Activated(t, sem, c);
    var s2 := Activated(t, s1, d);
    assert d in t.children[p];
    ShowMember(t, sem, p, c);
    ShowMember(t, s1, p, d);
    HideMember(t, s2, p, d);
    ThreeRequests(t, sem, c, d);
  }

  lemma ThreeRequests(t: Tree, sem: seq<nat>, c: nat, d: nat)
    requires Shape(t) && Counts(t, sem) && c < |sem| && d < |sem| && sem[c] == 0
    requires Activated(t, sem, c)[d] == 0 && Activated(t, Activated(t, sem, c), d)[d] > 0
    ensures Ran(t, sem, [Show(c), Show(d), Hide(d)]) == Deactivated(t, Activated(t, Activated(t, sem, c), d), d)
  {
    var s1, s2 := Activated(t, sem, c), Activated(t, Activated(t, sem, c), d);
    assert [Show(c), Show(d), Hide(d)][1..] == [Show(d), Hide(d)];
    assert [Show(d), Hide(d)][1..] == [Hide(d)];
    assert [Hide(d)][1..] == [];
    assert Ran(t, s2, [Hide(d)]) == Deactivated(t, s2, d);
    assert Ran(t, s1, [Show(d), Hide(d)]) == Ran(t, s2, [Hide(d)]);
  }
}
