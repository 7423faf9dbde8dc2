/** The tree of graphic items: activation counts, mutex groups and layered visibility
    (canquick/rootedtreenode.cpp). Nodes are numbered so that children come after their parents;
    the root is 0 and has no parent. */
module DisplayTree {
  import opened Lists

  const NONE := -1

  datatype Info = Info(parent: int, layer: int, mutexGroup: bool, modeGroup: bool)

  datatype Tree = Tree(nodes: seq<Info>, children: seq<seq<nat>>)

  predicate Within(queue: seq<nat>, n: nat) {
    forall k | 0 <= k < |queue| :: queue[k] < n
  }

  predicate InOrder(nodes: seq<Info>, queue: seq<nat>) {
    Within(queue, |nodes|) &&
    forall j, k | 0 <= j < k < |queue| :: nodes[queue[j]].layer <= nodes[queue[k]].layer
  }

  /** `queue` has exactly the nodes below `bound` whose parent is `p`, by layer. */
  ghost predicate ChildrenOf(nodes: seq<Info>, queue: seq<nat>, p: nat, bound: nat)
    requires bound <= |nodes|
  {
    InOrder(nodes, queue) && Distinct(queue) &&
    forall c: nat :: c in queue <==> c < bound && nodes[c].parent == p
  }

  predicate Numbered(nodes: seq<Info>) {
    |nodes| > 0 && nodes[0].parent == NONE && forall i | 0 < i < |nodes| :: 0 <= nodes[i].parent < i
  }

  ghost predicate Shape(t: Tree) {
    Numbered(t.nodes) && |t.children| == |t.nodes| &&
    forall p: nat | p < |t.nodes| :: ChildrenOf(t.nodes, t.children[p], p, |t.nodes|)
  }

  // ----- counts -----

  function Sum(sem: seq<nat>, queue: seq<nat>): nat
    requires Within(queue, |sem|)
  {
    if queue == [] then 0 else sem[queue[0]] + Sum(sem, queue[1..])
  }

  predicate Counts(t: Tree, sem: seq<nat>) {
    |sem| == |t.nodes|
  }

  /** `handleMutexGroup`: nothing in the queue is active any more. */
  function Cleared(sem: seq<nat>, queue: seq<nat>): (r: seq<nat>)
    requires Within(queue, |sem|)
    ensures |r| == |sem| && forall y: nat | y < |sem| :: r[y] == if y in queue then 0 else sem[y]
    decreases |queue|
  {
    if queue == [] then sem
    else
      assert queue == [queue[0]] + queue[1..];
      Cleared(sem[queue[0] := 0], queue[1..])
  }

  ghost function Parent(t: Tree, x: nat): (p: int)
    requires Shape(t) && x < |t.nodes|
    ensures p < x && (p == NONE || 0 <= p)
    ensures p != NONE ==> x in t.children[p]
  {
    t.nodes[x].parent
  }

  /** `activate`: in a mutex group the others go first. */
  ghost function Activated(t: Tree, sem: seq<nat>, x: nat): (r: seq<nat>)
    requires Shape(t) && Counts(t, sem) && x < |sem|
    ensures Counts(t, r)
    decreases x, 1
  {
    Raised(t, AfterMutex(t, sem, x), x)
  }

  ghost function AfterMutex(t: Tree, sem: seq<nat>, x: nat): (s: seq<nat>)
    requires Shape(t) && Counts(t, sem) && x < |sem|
    ensures Counts(t, s)
  {
    var p := Parent(t, x);
    if p != NONE && t.nodes[p].mutexGroup then Cleared(sem, t.children[p]) else sem
  }

  /** One more for `x` and, up to the nearest mode group, for what is above it. */
  ghost function Raised(t: Tree, s: seq<nat>, x: nat): (r: seq<nat>)
    requires Shape(t) && Counts(t, s) && x < |s|
    ensures Counts(t, r)
    decreases x, 0
  {
    var p := Parent(t, x);
    var s' := s[x := s[x] + 1];
    if p == NONE || t.nodes[p].modeGroup then s' else Activated(t, s', p)
  }

  /** `deactivate` */
  ghost function Deactivated(t: Tree, sem: seq<nat>, x: nat): (r: seq<nat>)
    requires Shape(t) && Counts(t, sem) && x < |sem|
    ensures Counts(t, r)
    decreases x
  {
    if sem[x] == 0 then sem
    else
      var p := Parent(t, x);
      var s' := sem[x := sem[x] - 1];
      if p == NONE || t.nodes[p].modeGroup then s' else Deactivated(t, s', p)
  }

  // ----- what keeps the counts sound -----

  /** The count of `x`, were it `d` higher, is at least the sum of its children's counts. */
  ghost predicate Covers(t: Tree, sem: seq<nat>, x: nat, d: int)
    requires Shape(t) && Counts(t, sem) && x < |sem|
  {
    t.nodes[x].modeGroup || sem[x] + d >= Sum(sem, t.children[x])
  }

  ghost predicate OneActive(t: Tree, sem: seq<nat>, x: nat)
    requires Shape(t) && Counts(t, sem) && x < |sem|
  {
    forall c, d | c in t.children[x] && d in t.children[x] :: sem[c] > 0 && sem[d] > 0 ==> c == d
  }

  ghost predicate InMutexGroup(t: Tree, x: nat)
    requires Shape(t) && x < |t.nodes|
  {
    Parent(t, x) != NONE && t.nodes[Parent(t, x)].mutexGroup
  }

  /** A child of a member of a mutex group, which counts for that member. */
  ghost predicate BelowMember(t: Tree, x: nat)
    requires Shape(t) && x < |t.nodes|
  {
    var c := Parent(t, x);
    c != NONE && !t.nodes[c].modeGroup && InMutexGroup(t, c)
  }

  ghost predicate Steady(t: Tree, sem: seq<nat>, y: nat)
    requires Shape(t) && Counts(t, sem) && y < |sem|
  {
    Covers(t, sem, y, 0) && (t.nodes[y].mutexGroup ==> OneActive(t, sem, y)) && (sem[y] > 0 ==> !BelowMember(t, y))
  }

  /** Every count covers those below it, no mutex group has two active members, and no count is below
      a member of one. */
  ghost predicate Sound(t: Tree, sem: seq<nat>) {
    Shape(t) && Counts(t, sem) && forall y: nat | y < |sem| :: Steady(t, sem, y)
  }

  /** The same, once the count of `x` has changed by `d`. */
  ghost predicate SoundAfter(t: Tree, sem: seq<nat>, x: nat, d: int) {
    Shape(t) && Counts(t, sem) && x < |sem| && Covers(t, sem, x, d) &&
    (t.nodes[x].mutexGroup ==> OneActive(t, sem, x)) &&
    forall y: nat | y < |sem| && y != x :: Steady(t, sem, y)
  }

  lemma {:induction false} SumOfChange(sem: seq<nat>, queue: seq<nat>, x: nat, v: nat)
    requires Within(queue, |sem|) && Distinct(queue) && x < |sem|
    ensures Sum(sem[x := v], queue) == Sum(sem, queue) + if x in queue then v - sem[x] else 0
  {
    if queue != [] {
      SumOfChange(sem, queue[1..], x, v);
      assert queue == [queue[0]] + queue[1..];
    }
  }

  lemma {:induction false} SumCovers(sem: seq<nat>, queue: seq<nat>, x: nat)
    requires Within(queue, |sem|) && x in queue
    ensures Sum(sem, queue) >= sem[x]
  {
    if queue[0] != x {
      assert queue == [queue[0]] + queue[1..];
      SumCovers(sem, queue[1..], x);
    }
  }

  lemma {:induction false} SumOfOthers(sem: seq<nat>, sem': seq<nat>, queue: seq<nat>)
    requires |sem| == |sem'| && Within(queue, |sem|) && forall k | 0 <= k < |queue| :: sem'[queue[k]] == sem[queue[k]]
    ensures Sum(sem', queue) == Sum(sem, queue)
  {
    if queue != [] {
      SumOfOthers(sem, sem', queue[1..]);
    }
  }

  lemma {:induction false} SumOfNone(sem: seq<nat>, queue: seq<nat>)
    requires Within(queue, |sem|) && forall k | 0 <= k < |queue| :: sem[queue[k]] == 0
    ensures Sum(sem, queue) == 0
  {
    if queue != [] {
      SumOfNone(sem, queue[1..]);
    }
  }

  /** Lists of children do not meet. */
  lemma OneParent(t: Tree, c: nat, p: nat, q: nat)
    requires Shape(t) && p < |t.nodes| && q < |t.nodes| && c in t.children[p] && c in t.children[q]
    ensures p == q && p < c < |t.nodes| && Parent(t, c) == p
  {
  }

  ghost function Child(t: Tree, x: nat, k: nat): (c: nat)
    requires Shape(t) && x < |t.nodes| && k < |t.children[x]|
    ensures x < c < |t.nodes| && Parent(t, c) == x
  {
    assert t.children[x][k] in t.children[x];
    t.children[x][k]
  }

  // ----- what becomes of each count -----

  /** Below a mode group or the root, `y` counts for `x`. */
  ghost predicate Counted(t: Tree, y: nat, x: nat)
    requires Shape(t) && x < |t.nodes|
    decreases x
  {
    y == x || (Parent(t, x) != NONE && !t.nodes[Parent(t, x)].modeGroup && Counted(t, y, Parent(t, x)))
  }

  /** `y` is in a mutex group of which `x`, or a node that counts for it, is a member. */
  ghost predicate Swept(t: Tree, y: nat, x: nat)
    requires Shape(t) && x < |t.nodes| && y < |t.nodes|
    decreases x
  {
    var p := Parent(t, x);
    p != NONE &&
    ((t.nodes[p].mutexGroup && Parent(t, y) == p) || (!t.nodes[p].modeGroup && Swept(t, y, p)))
  }

  lemma {:induction false} CountedIsAbove(t: Tree, y: nat, x: nat)
    requires Shape(t) && x < |t.nodes|
    ensures Counted(t, y, x) ==> y <= x
    decreases x
  {
    if Parent(t, x) != NONE {
      CountedIsAbove(t, y, Parent(t, x));
    }
  }

  lemma {:induction false} SweptIsAbove(t: Tree, y: nat, x: nat)
    requires Shape(t) && x < |t.nodes| && y < |t.nodes|
    ensures Swept(t, y, x) ==> Parent(t, y) < x
    decreases x
  {
    if Parent(t, x) != NONE {
      SweptIsAbove(t, y, Parent(t, x));
    }
  }

  lemma AfterMutexCounts(t: Tree, sem: seq<nat>, x: nat, y: nat)
    requires Shape(t) && Counts(t, sem) && x < |sem| && y < |sem|
    ensures AfterMutex(t, sem, x)[y] == if InMutexGroup(t, x) && Parent(t, y) == Parent(t, x) then 0 else sem[y]
  {
    if Parent(t, x) != NONE {
      assert y in t.children[Parent(t, x)] <==> Parent(t, y) == Parent(t, x);
    }
  }

  /** What activation does to each count, in any tree: one more for the node and what it counts for,
      and nothing is left of the others in the mutex groups on the way. */
  lemma {:induction false} ActivateCounts(t: Tree, sem: seq<nat>, x: nat, y: nat)
    requires Shape(t) && Counts(t, sem) && x < |sem| && y < |sem|
    ensures Activated(t, sem, x)[y] == (if Swept(t, y, x) then 0 else sem[y]) + if Counted(t, y, x) then 1 else 0
    decreases x
  {
    var p := Parent(t, x);
    var s := AfterMutex(t, sem, x);
    AfterMutexCounts(t, sem, x, y);
    if p != NONE && !t.nodes[p].modeGroup {
      ActivateCounts(t, s[x := s[x] + 1], p, y);
      CountedIsAbove(t, y, p);
      SweptIsAbove(t, y, p);
    }
  }

  /** What deactivation does: one less for the node and all it counts for. */
  lemma {:induction false} DeactivateCounts(t: Tree, sem: seq<nat>, x: nat, y: nat)
    requires Shape(t) && Counts(t, sem) && x < |sem| && y < |sem|
    requires forall z: nat | Counted(t, z, x) :: z < |sem| && sem[z] > 0
    ensures Deactivated(t, sem, x)[y] + (if Counted(t, y, x) then 1 else 0) == sem[y]
    decreases x
  {
    var p := Parent(t, x);
    assert Counted(t, x, x);
    if p != NONE && !t.nodes[p].modeGroup {
      var s := sem[x := sem[x] - 1];
      forall z: nat | Counted(t, z, p)
        ensures z < |s| && s[z] > 0
      {
        CountedIsAbove(t, z, p);
        assert Counted(t, z, x);
      }
      DeactivateCounts(t, s, p, y);
      CountedIsAbove(t, y, p);
    }
  }

  // ----- activation keeps the counts sound -----

  /** Something would be counted below a member of a mutex group, were `x` active. */
  ghost predicate Barred(t: Tree, x: nat)
    requires Shape(t) && x < |t.nodes|
    decreases x
  {
    var p := Parent(t, x);
    BelowMember(t, x) || (p != NONE && !t.nodes[p].modeGroup && Barred(t, p))
  }

  lemma {:induction false} BarredCounts(t: Tree, x: nat) returns (z: nat)
    requires Shape(t) && x < |t.nodes| && Barred(t, x)
    ensures z < |t.nodes| && Counted(t, z, x) && BelowMember(t, z)
    decreases x
  {
    z := x;
    if !BelowMember(t, x) {
      z := BarredCounts(t, Parent(t, x));
    }
  }

  /** The siblings in the parent's mutex group are not active. */
  ghost predicate Alone(t: Tree, sem: seq<nat>, x: nat)
    requires Shape(t) && Counts(t, sem) && x < |sem|
  {
    var p := Parent(t, x);
    p != NONE && t.nodes[p].mutexGroup ==> forall k | 0 <= k < |t.children[p]| :: sem[t.children[p][k]] == 0
  }

  lemma NothingBelowMember(t: Tree, sem: seq<nat>, p: nat, y: nat, x: nat)
    requires SoundAfter(t, sem, x, 1) && p < |sem| && t.nodes[p].mutexGroup && x in t.children[p]
    requires y < |sem| && y in t.children[p] && !t.nodes[y].modeGroup
    ensures Sum(sem, t.children[y]) == 0 && Sum(Cleared(sem, t.children[p]), t.children[y]) == 0
  {
    forall k | 0 <= k < |t.children[y]|
      ensures sem[t.children[y][k]] == 0
    {
      var d := Child(t, y, k);
      OneParent(t, y, p, p);
      OneParent(t, x, p, p);
      assert BelowMember(t, d) && d != x;
      assert Steady(t, sem, d);
    }
    SumOfNone(sem, t.children[y]);
    SumOfNone(Cleared(sem, t.children[p]), t.children[y]);
  }

  lemma ClearLeavesChildren(t: Tree, sem: seq<nat>, p: nat, y: nat)
    requires Shape(t) && Counts(t, sem) && p < |sem| && y < |sem| && y != p
    ensures forall k | 0 <= k < |t.children[y]| ::
      t.children[y][k] < |sem| && Cleared(sem, t.children[p])[t.children[y][k]] == sem[t.children[y][k]]
    ensures Sum(Cleared(sem, t.children[p]), t.children[y]) == Sum(sem, t.children[y])
  {
    forall k | 0 <= k < |t.children[y]|
      ensures t.children[y][k] < |sem| && Cleared(sem, t.children[p])[t.children[y][k]] == sem[t.children[y][k]]
    {
      assert t.children[y][k] in t.children[y];
    }
    SumOfOthers(sem, Cleared(sem, t.children[p]), t.children[y]);
  }

  lemma ClearKeepsSteady(t: Tree, sem: seq<nat>, p: nat, x: nat, y: nat)
    requires SoundAfter(t, sem, x, 1) && p < |sem| && t.nodes[p].mutexGroup && x in t.children[p]
    requires y < |sem| && y != x
    ensures Steady(t, Cleared(sem, t.children[p]), y)
  {
    var s := Cleared(sem, t.children[p]);
    assert Steady(t, sem, y);
    if y == p {
      SumOfNone(s, t.children[p]);
    } else {
      ClearLeavesChildren(t, sem, p, y);
      if y in t.children[p] && !t.nodes[y].modeGroup {
        NothingBelowMember(t, sem, p, y, x);
      }
    }
  }

  lemma ClearKeepsSound(t: Tree, sem: seq<nat>, p: nat, x: nat)
    requires SoundAfter(t, sem, x, 1) && p < |sem| && t.nodes[p].mutexGroup && x in t.children[p]
    ensures SoundAfter(t, Cleared(sem, t.children[p]), x, 1)
  {
    forall y: nat | y < |sem| && y != x
      ensures Steady(t, Cleared(sem, t.children[p]), y)
    {
      ClearKeepsSteady(t, sem, p, x, y);
    }
    ClearLeavesChildren(t, sem, p, x);
    if !t.nodes[x].modeGroup {
      NothingBelowMember(t, sem, p, x, x);
    }
  }

  /** A count changes by `d`, which its parent has to match unless it does not follow its children. */
  lemma ChangeKeepsSound(t: Tree, sem: seq<nat>, x: nat, d: int)
    requires SoundAfter(t, sem, x, d) && (d == 1 || d == -1) && sem[x] + d >= 0
    requires !BelowMember(t, x) && (d == 1 ==> Alone(t, sem, x))
    ensures var p := Parent(t, x);
      var s' := sem[x := sem[x] + d];
      if p == NONE || t.nodes[p].modeGroup then Sound(t, s') else SoundAfter(t, s', p, d)
  {
    var p := Parent(t, x);
    var s' := sem[x := sem[x] + d];
    forall y: nat | y < |sem| && y != p
      ensures Steady(t, s', y)
    {
      ChangeLeavesOthers(t, sem, x, d, y);
    }
    if p != NONE {
      ChangeMovesParent(t, sem, x, d);
    }
  }

  lemma ChangeLeavesOthers(t: Tree, sem: seq<nat>, x: nat, d: int, y: nat)
    requires SoundAfter(t, sem, x, d) && sem[x] + d >= 0 && y < |sem| && y != Parent(t, x) && !BelowMember(t, x)
    ensures Steady(t, sem[x := sem[x] + d], y)
  {
    SumOfChange(sem, t.children[y], x, sem[x] + d);
    assert x !in t.children[y];
    assert y != x ==> Steady(t, sem, y);
  }

  lemma ChangeMovesParent(t: Tree, sem: seq<nat>, x: nat, d: int)
    requires SoundAfter(t, sem, x, d) && (d == 1 || d == -1) && sem[x] + d >= 0 && Parent(t, x) != NONE
    requires d == 1 ==> Alone(t, sem, x)
    ensures var p, s' := Parent(t, x), sem[x := sem[x] + d];
      Covers(t, s', p, d) && (t.nodes[p].mutexGroup ==> OneActive(t, s', p)) && (s'[p] > 0 ==> !BelowMember(t, p))
  {
    var p := Parent(t, x);
    assert Steady(t, sem, p);
    SumOfChange(sem, t.children[p], x, sem[x] + d);
  }

  /** Activation keeps the tree sound: what is gained below is gained all the way up. */
  lemma {:induction false} ActivateKeepsSound(t: Tree, sem: seq<nat>, x: nat)
    requires SoundAfter(t, sem, x, 1) && !Barred(t, x)
    ensures Sound(t, Activated(t, sem, x))
    decreases x
  {
    var p, s := Parent(t, x), AfterMutex(t, sem, x);
    if p != NONE && t.nodes[p].mutexGroup {
      ClearKeepsSound(t, sem, p, x);
    }
    ChangeKeepsSound(t, s, x, 1);
    if p != NONE && !t.nodes[p].modeGroup {
      ActivateKeepsSound(t, s[x := s[x] + 1], p);
    }
  }

  /** A node may be activated whatever is below it; only what counts for a member of a mutex group
      may not, since clearing the group does not reach it. */
  lemma ActivateKeepsSoundExactlyWhen(t: Tree, sem: seq<nat>, x: nat)
    requires Sound(t, sem) && x < |sem|
    ensures Sound(t, Activated(t, sem, x)) <==> !Barred(t, x)
  {
    assert Steady(t, sem, x);
    if Barred(t, x) {
      var z := BarredCounts(t, x);
      ActivateCounts(t, sem, x, z);
      assert !Steady(t, Activated(t, sem, x), z);
    } else {
      ActivateKeepsSound(t, sem, x);
    }
  }

  // ----- and so does deactivation -----

  /** Everything above an active node is active, up to the nearest mode group. */
  lemma {:induction false} AncestorsAreActive(t: Tree, sem: seq<nat>, x: nat, y: nat)
    requires Sound(t, sem) && x < |sem| && sem[x] > 0 && Counted(t, y, x)
    ensures y < |sem| && sem[y] > 0
    decreases x
  {
    if y != x {
      var p := Parent(t, x);
      SumCovers(sem, t.children[p], x);
      assert Steady(t, sem, p);
      AncestorsAreActive(t, sem, p, y);
    }
  }

  lemma {:induction false} DeactivateKeepsSound(t: Tree, sem: seq<nat>, x: nat)
    requires SoundAfter(t, sem, x, -1) && sem[x] > 0 && !BelowMember(t, x)
    ensures Sound(t, Deactivated(t, sem, x))
    decreases x
  {
    var p := Parent(t, x);
    ChangeKeepsSound(t, sem, x, -1);
    if p != NONE && !t.nodes[p].modeGroup {
      var s := sem[x := sem[x] - 1];
      SumCovers(sem, t.children[p], x);
      assert Steady(t, sem, p);
      DeactivateKeepsSound(t, s, p);
    }
  }

  /** A node may be deactivated exactly if its count is more than its children need, mode groups aside. */
  lemma DeactivateKeepsSoundExactlyWhen(t: Tree, sem: seq<nat>, x: nat)
    requires Sound(t, sem) && x < |sem| && sem[x] > 0
    ensures Sound(t, Deactivated(t, sem, x)) <==> t.nodes[x].modeGroup || sem[x] > Sum(sem, t.children[x])
  {
    assert Steady(t, sem, x);
    if t.nodes[x].modeGroup || sem[x] > Sum(sem, t.children[x]) {
      DeactivateKeepsSound(t, sem, x);
    } else {
      DeactivateMoves(t, sem, x);
      var s := Deactivated(t, sem, x);
      forall k | 0 <= k < |t.children[x]|
        ensures s[t.children[x][k]] == sem[t.children[x][k]]
      {
        var c := Child(t, x, k);
        CountedIsAbove(t, c, x);
      }
      SumOfOthers(sem, s, t.children[x]);
      assert !Steady(t, s, x);
    }
  }

  /** In a sound tree deactivation reaches everything that the node counts for. */
  lemma DeactivateMoves(t: Tree, sem: seq<nat>, x: nat)
    requires Sound(t, sem) && x < |sem| && sem[x] > 0
    ensures forall y: nat | y < |sem| ::
      Deactivated(t, sem, x)[y] + (if Counted(t, y, x) then 1 else 0) == sem[y]
  {
    forall z: nat | Counted(t, z, x)
      ensures z < |sem| && sem[z] > 0
    {
      AncestorsAreActive(t, sem, x, z);
    }
    forall y: nat | y < |sem|
      ensures Deactivated(t, sem, x)[y] + (if Counted(t, y, x) then 1 else 0) == sem[y]
    {
      DeactivateCounts(t, sem, x, y);
    }
  }

}
