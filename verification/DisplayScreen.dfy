/** The display (canquick/rootedtreenode.cpp): one object holds the fields of all nodes. */
module DisplayScreen {
  import opened DisplayLayers
  import opened DisplayRuns
  import opened DisplayTree
  import opened Lists

  class Display {
    const nodes: seq<Info>
    var children: seq<seq<nat>>
    var sem: seq<nat>
    var told: Log

    ghost function T(): Tree
      reads this
    {
      Tree(nodes, children)
    }

    /** `appendChild`: before the first child whose layer is not smaller
        (canquick/rootedtreenode.cpp:33-52). */
    method AppendChild(p: nat, c: nat) returns (ghost at: nat)
      requires p < |children| == |nodes| && c < |nodes| && InOrder(nodes, children[p])
      modifies this`children
      ensures |children| == |old(children)| && InOrder(nodes, children[p])
      ensures forall q | 0 <= q < |children| && q != p :: children[q] == old(children)[q]
      ensures at <= |old(children)[p]| && children[p] == old(children)[p][..at] + [c] + old(children)[p][at..]
      ensures forall k | 0 <= k < at :: nodes[old(children)[p][k]].layer < nodes[c].layer
    {
      var queue := children[p];
      var it := 0;
      while it < |queue| && nodes[queue[it]].layer < nodes[c].layer
        invariant it <= |queue|
        invariant forall k | 0 <= k < it :: nodes[queue[k]].layer < nodes[c].layer
      {
        it := it + 1;
      }
      children := children[p := queue[..it] + [c] + queue[it..]];
      at := it;
    }

    /** The tree of the items on screen, nothing active. */
    constructor (items: seq<Info>)
      requires Numbered(items)
      ensures nodes == items && Sound(T(), sem) && Exclusive(T(), sem) && forall x | 0 <= x < |sem| :: sem[x] == 0
    {
      nodes := items;
      children := seq(|items|, _ => []);
      sem := seq(|items|, _ => 0);
      told := [];
      new;
      for c := 1 to |nodes|
        invariant |children| == |nodes| == |sem| && forall x | 0 <= x < |sem| :: sem[x] == 0
        invariant forall p: nat | p < |nodes| :: ChildrenOf(nodes, children[p], p, c)
      {
        ghost var was := children;
        assert ChildrenOf(nodes, children[nodes[c].parent], nodes[c].parent, c);
        ghost var at := AppendChild(nodes[c].parent, c);
        AppendedIsChild(nodes, was, children, nodes[c].parent, c, at);
      }
      NothingActiveIsSound(T(), sem);
    }

    method HandleMutexGroup(p: nat)
      requires Shape(T()) && Counts(T(), sem) && p < |sem|
      modifies this`sem
      ensures sem == Cleared(old(sem), children[p])
    {
      var queue := children[p];
      ghost var was := sem;
      for k := 0 to |queue|
        invariant |sem| == |was|
        invariant Cleared(sem, queue[k..]) == Cleared(was, queue)
      {
        assert queue[k..][0] == queue[k] && queue[k..][1..] == queue[k + 1..];
        sem := sem[queue[k] := 0];
      }
    }

    /** `activate` (canquick/rootedtreenode.cpp:265-289) */
    method Activate(x: nat)
      requires Shape(T()) && Counts(T(), sem) && x < |sem|
      modifies this`sem
      ensures sem == Activated(T(), old(sem), x)
      decreases x
    {
      var p := nodes[x].parent;
      assert p == Parent(T(), x);
      if p != NONE && nodes[p].mutexGroup {
        HandleMutexGroup(p);
      }
      sem := sem[x := sem[x] + 1];
      if p == NONE {
        return;
      }
      if !nodes[p].modeGroup {
        Activate(p);
      }
    }

    /** `deactivate` (canquick/rootedtreenode.cpp:291-311) */
    method Deactivate(x: nat)
      requires Shape(T()) && Counts(T(), sem) && x < |sem|
      modifies this`sem
      ensures sem == Deactivated(T(), old(sem), x)
      decreases x
    {
      if sem[x] != 0 {
        sem := sem[x := sem[x] - 1];
        var p := nodes[x].parent;
        assert p == Parent(T(), x);
        if p == NONE {
          return;
        }
        if !nodes[p].modeGroup {
          Deactivate(p);
        }
      }
    }

    /** A node of an alert is shown or hidden, unless it is so already
        (canquick/mainprocess.cpp:256-282, 322-341; canquick/rootedtreenode.cpp:406-425). */
    method Handle(request: Request)
      requires Shape(T()) && Counts(T(), sem) && request.x < |sem|
      modifies this`sem
      ensures sem == Handled(T(), old(sem), request)
    {
      if request.Show? {
        if sem[request.x] == 0 {
          Activate(request.x);
        }
      } else if sem[request.x] > 0 {
        Deactivate(request.x);
      }
    }

    /** Over any run of requests mutex groups are exclusive, and the counts stay sound if each request may
        be handled when it comes. */
    method Run(requests: seq<Request>)
      requires Shape(T()) && Counts(T(), sem) && Known(T(), requests)
      modifies this`sem
      ensures sem == Ran(T(), old(sem), requests)
      ensures old(Exclusive(T(), sem)) ==> Exclusive(T(), sem)
      ensures old(Sound(T(), sem) && MayRun(T(), sem, requests)) ==> Sound(T(), sem)
    {
      ghost var was := sem;
      for k := 0 to |requests|
        invariant Counts(T(), sem) && Ran(T(), sem, requests[k..]) == Ran(T(), was, requests)
      {
        assert requests[k..][0] == requests[k] && requests[k..][1..] == requests[k + 1..];
        Handle(requests[k]);
      }
      if Exclusive(T(), was) {
        MutexGroupsAreExclusive(T(), was, requests);
      }
      if Sound(T(), was) && MayRun(T(), was, requests) {
        RunKeepsSoundExactlyWhen(T(), was, requests);
        assert SoundAt(T(), was, requests, |requests|) && requests[..|requests|] == requests;
      }
    }

    /** `updateVisibility` (canquick/rootedtreenode.cpp:314-382) */
    method UpdateVisibility(x: nat, forced: bool)
      requires Shape(T()) && Counts(T(), sem) && x < |sem|
      modifies this`told
      ensures told == old(told) + Told(T(), sem, x, forced)
      decreases |sem| - x, 1
    {
      if forced || sem[x] == 0 {
        told := told + [(x, false)];
        HideChildren(x);
      } else {
        told := told + [(x, true)];
        ShowChildren(x);
      }
    }

    method HideChildren(x: nat)
      requires Shape(T()) && Counts(T(), sem) && x < |sem|
      modifies this`told
      ensures told == old(told) + ToldHidden(T(), sem, x, 0)
      decreases |sem| - x, 0
    {
      ghost var goal := told + ToldHidden(T(), sem, x, 0);
      for k := 0 to |children[x]|
        invariant told + ToldHidden(T(), sem, x, k) == goal
      {
        assert children[x][k] == Child(T(), x, k);
        ghost var before, rest := told, ToldHidden(T(), sem, x, k + 1);
        UpdateVisibility(children[x][k], true);
        Regroup(before, Told(T(), sem, Child(T(), x, k), true), rest);
      }
    }

    method ShowChildren(x: nat)
      requires Shape(T()) && Counts(T(), sem) && x < |sem|
      modifies this`told
      ensures told == old(told) + ToldLayers(T(), sem, x, 0, NONE)
      decreases |sem| - x, 0
    {
      ghost var goal := told + ToldLayers(T(), sem, x, 0, NONE);
      var activatedLayer := -1;
      for k := 0 to |children[x]|
        invariant told + ToldLayers(T(), sem, x, k, activatedLayer) == goal
      {
        var c := children[x][k];
        assert c == Child(T(), x, k);
        if activatedLayer == -1 && sem[c] > 0 {
          activatedLayer := nodes[c].layer;
        }
        ghost var before, rest := told, ToldLayers(T(), sem, x, k + 1, activatedLayer);
        var forced := !(nodes[c].layer <= activatedLayer && sem[c] > 0);
        UpdateVisibility(c, forced);
        Regroup(before, Told(T(), sem, c, forced), rest);
      }
    }
  }

  lemma Regroup(a: Log, b: Log, c: Log)
    ensures (a + b) + c == a + (b + c)
  {
  }

  lemma InsertedOnce(queue: seq<nat>, at: nat, c: nat)
    requires Distinct(queue) && c !in queue && at <= |queue|
    ensures Distinct(queue[..at] + [c] + queue[at..])
    ensures forall x :: x in queue[..at] + [c] + queue[at..] <==> x in queue || x == c
  {
    var r := queue[..at] + [c] + queue[at..];
    assert queue == queue[..at] + queue[at..];
    assert forall k | 0 <= k < |r| :: r[k] == if k < at then queue[k] else if k == at then c else queue[k - 1];
  }

  lemma AppendedIsChild(nodes: seq<Info>, was: seq<seq<nat>>, now: seq<seq<nat>>, p: nat, c: nat, at: nat)
    requires p < |was| == |now| == |nodes| && c < |nodes| && nodes[c].parent == p
    requires forall q: nat | q < |nodes| :: ChildrenOf(nodes, was[q], q, c)
    requires forall q | 0 <= q < |nodes| && q != p :: now[q] == was[q]
    requires InOrder(nodes, now[p]) && at <= |was[p]| && now[p] == was[p][..at] + [c] + was[p][at..]
    ensures forall q: nat | q < |nodes| :: ChildrenOf(nodes, now[q], q, c + 1)
  {
    assert ChildrenOf(nodes, was[p], p, c);
    InsertedOnce(was[p], at, c);
    forall q: nat | q < |nodes|
      ensures ChildrenOf(nodes, now[q], q, c + 1)
    {
      assert ChildrenOf(nodes, was[q], q, c);
    }
  }

  lemma NothingActiveIsSound(t: Tree, sem: seq<nat>)
    requires Shape(t) && Counts(t, sem) && forall x | 0 <= x < |sem| :: sem[x] == 0
    ensures Sound(t, sem) && Exclusive(t, sem)
  {
    forall y: nat | y < |sem|
      ensures Steady(t, sem, y)
    {
      assert ChildrenOf(t.nodes, t.children[y], y, |sem|);
      SumOfNone(sem, t.children[y]);
    }
  }
}
