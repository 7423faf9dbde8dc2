/** Which items are shown: `updateVisibility` (canquick/rootedtreenode.cpp:313-380) sends each node a message,
    and the layers of siblings decide which. */
module DisplayLayers {
  import opened DisplayTree

  /** No active node beside `y` has a smaller layer. */
  ghost predicate Foremost(t: Tree, sem: seq<nat>, y: nat)
    requires Shape(t) && Counts(t, sem) && y < |sem|
  {
    Parent(t, y) == NONE ||
    forall k | 0 <= k < |t.children[Parent(t, y)]| ::
      var c := t.children[Parent(t, y)][k];
      sem[c] > 0 ==> t.nodes[y].layer <= t.nodes[c].layer
  }

  /** `y` and everything between it and `x` is active, and everything between has the least layer. */
  ghost predicate VisibleFrom(t: Tree, sem: seq<nat>, x: nat, y: nat)
    requires Shape(t) && Counts(t, sem) && y < |sem|
    decreases y
  {
    sem[y] > 0 && (y == x || (Foremost(t, sem, y) && Parent(t, y) != NONE && VisibleFrom(t, sem, x, Parent(t, y))))
  }

  /** The node and everything above it is active, and wherever layers compete they have the least. */
  ghost predicate Visible(t: Tree, sem: seq<nat>, y: nat)
    requires Shape(t) && Counts(t, sem) && y < |sem|
  {
    VisibleFrom(t, sem, 0, y)
  }

  type Log = seq<(nat, bool)>

  /** `updateVisibility`: what the nodes from `x` down are told. */
  ghost function Told(t: Tree, sem: seq<nat>, x: nat, forced: bool): Log
    requires Shape(t) && Counts(t, sem) && x < |sem|
    decreases |sem| - x, 1, 0
  {
    if forced || sem[x] == 0 then [(x, false)] + ToldHidden(t, sem, x, 0)
    else [(x, true)] + ToldLayers(t, sem, x, 0, NONE)
  }

  ghost function ToldHidden(t: Tree, sem: seq<nat>, x: nat, k: nat): Log
    requires Shape(t) && Counts(t, sem) && x < |sem| && k <= |t.children[x]|
    decreases |sem| - x, 0, |t.children[x]| - k
  {
    if k == |t.children[x]| then []
    else Told(t, sem, Child(t, x, k), true) + ToldHidden(t, sem, x, k + 1)
  }

  /** `activatedLayer` after the child `c` has been looked at. */
  function NextLayer(layer: int, own: int, active: bool): int {
    if layer == NONE && active then own else layer
  }

  ghost function ToldLayers(t: Tree, sem: seq<nat>, x: nat, k: nat, layer: int): Log
    requires Shape(t) && Counts(t, sem) && x < |sem| && k <= |t.children[x]|
    decreases |sem| - x, 0, |t.children[x]| - k
  {
    if k == |t.children[x]| then []
    else
      var c := Child(t, x, k);
      var layer' := NextLayer(layer, t.nodes[c].layer, sem[c] > 0);
      Told(t, sem, c, !(t.nodes[c].layer <= layer' && sem[c] > 0)) + ToldLayers(t, sem, x, k + 1, layer')
  }

  // ----- everyone is told once -----

  ghost predicate Under(t: Tree, x: nat, y: nat)
    requires Shape(t) && y < |t.nodes|
    decreases y
  {
    y == x || (Parent(t, y) != NONE && Under(t, x, Parent(t, y)))
  }

  function Times(log: Log, y: nat): nat {
    if log == [] then 0 else (if log[0].0 == y then 1 else 0) + Times(log[1..], y)
  }

  lemma {:induction false} TimesOfBoth(a: Log, b: Log, y: nat)
    ensures Times(a + b, y) == Times(a, y) + Times(b, y)
  {
    if a == [] {
      assert a + b == b;
    } else {
      assert (a + b)[1..] == a[1..] + b;
      TimesOfBoth(a[1..], b, y);
    }
  }

  /** How many of the children of `x` from the `k`-th on have `y` under them. */
  ghost function Branches(t: Tree, x: nat, k: nat, y: nat): nat
    requires Shape(t) && x < |t.nodes| && y < |t.nodes| && k <= |t.children[x]|
    decreases |t.children[x]| - k
  {
    if k == |t.children[x]| then 0
    else (if Under(t, Child(t, x, k), y) then 1 else 0) + Branches(t, x, k + 1, y)
  }

  lemma {:induction false} UnderIsBelow(t: Tree, x: nat, y: nat)
    requires Shape(t) && y < |t.nodes| && Under(t, x, y)
    ensures x <= y
    decreases y
  {
    if y != x {
      UnderIsBelow(t, x, Parent(t, y));
    }
  }

  /** The child of `x` on the way to `y`. */
  lemma {:induction false} WayDown(t: Tree, x: nat, y: nat) returns (k: nat)
    requires Shape(t) && x < |t.nodes| && y < |t.nodes| && Under(t, x, y) && y != x
    ensures k < |t.children[x]| && Under(t, Child(t, x, k), y)
    decreases y
  {
    var p := Parent(t, y);
    if p == x {
      k :| 0 <= k < |t.children[x]| && t.children[x][k] == y;
    } else {
      k := WayDown(t, x, p);
    }
  }

  lemma {:induction false} OneWay(t: Tree, x: nat, c: nat, d: nat, y: nat)
    requires Shape(t) && y < |t.nodes| && c < |t.nodes| && d < |t.nodes| && Parent(t, c) == x == Parent(t, d)
    requires Under(t, c, y) && Under(t, d, y)
    ensures c == d
    decreases y
  {
    UnderIsBelow(t, c, y);
    UnderIsBelow(t, d, y);
    if y == c && y != d {
      UnderIsBelow(t, d, x);
    } else if y == d && y != c {
      UnderIsBelow(t, c, x);
    } else if y != c {
      OneWay(t, x, c, d, Parent(t, y));
    }
  }

  lemma {:induction false} BranchesAre(t: Tree, x: nat, k: nat, y: nat)
    requires Shape(t) && x < |t.nodes| && y < |t.nodes| && k <= |t.children[x]|
    ensures Branches(t, x, k, y) ==
      if exists j :: k <= j < |t.children[x]| && Under(t, Child(t, x, j), y) then 1 else 0
    decreases |t.children[x]| - k
  {
    if k < |t.children[x]| {
      BranchesAre(t, x, k + 1, y);
      if Under(t, Child(t, x, k), y) {
        forall j | k < j < |t.children[x]|
          ensures !Under(t, Child(t, x, j), y)
        {
          if Under(t, Child(t, x, j), y) {
            OneWay(t, x, Child(t, x, k), Child(t, x, j), y);
          }
        }
      }
    }
  }

  lemma BranchesUnder(t: Tree, x: nat, y: nat)
    requires Shape(t) && x < |t.nodes| && y < |t.nodes|
    ensures Branches(t, x, 0, y) == if Under(t, x, y) && y != x then 1 else 0
  {
    BranchesAre(t, x, 0, y);
    if Under(t, x, y) && y != x {
      var k := WayDown(t, x, y);
    }
    forall j | 0 <= j < |t.children[x]| && Under(t, Child(t, x, j), y)
      ensures Under(t, x, y) && y != x
    {
      UnderChild(t, x, Child(t, x, j), y);
    }
  }

  lemma {:induction false} UnderChild(t: Tree, x: nat, c: nat, y: nat)
    requires Shape(t) && y < |t.nodes| && c < |t.nodes| && Parent(t, c) == x && Under(t, c, y)
    ensures Under(t, x, y) && y > x
    decreases y
  {
    if y != c {
      UnderChild(t, x, c, Parent(t, y));
    }
  }

  /** Each node under `x` is told once, and no other. */
  lemma {:induction false} ToldOnce(t: Tree, sem: seq<nat>, x: nat, forced: bool, y: nat)
    requires Shape(t) && Counts(t, sem) && x < |sem| && y < |sem|
    ensures Times(Told(t, sem, x, forced), y) == if Under(t, x, y) then 1 else 0
    decreases |sem| - x, 1, 0
  {
    BranchesUnder(t, x, y);
    if forced || sem[x] == 0 {
      ToldHiddenOnce(t, sem, x, 0, y);
      TimesOfBoth([(x, false)], ToldHidden(t, sem, x, 0), y);
    } else {
      ToldLayersOnce(t, sem, x, 0, NONE, y);
      TimesOfBoth([(x, true)], ToldLayers(t, sem, x, 0, NONE), y);
    }
  }

  lemma {:induction false} ToldHiddenOnce(t: Tree, sem: seq<nat>, x: nat, k: nat, y: nat)
    requires Shape(t) && Counts(t, sem) && x < |sem| && k <= |t.children[x]| && y < |sem|
    ensures Times(ToldHidden(t, sem, x, k), y) == Branches(t, x, k, y)
    decreases |sem| - x, 0, |t.children[x]| - k
  {
    if k < |t.children[x]| {
      ToldOnce(t, sem, Child(t, x, k), true, y);
      ToldHiddenOnce(t, sem, x, k + 1, y);
      TimesOfBoth(Told(t, sem, Child(t, x, k), true), ToldHidden(t, sem, x, k + 1), y);
    }
  }

  lemma {:induction false} ToldLayersOnce(t: Tree, sem: seq<nat>, x: nat, k: nat, layer: int, y: nat)
    requires Shape(t) && Counts(t, sem) && x < |sem| && k <= |t.children[x]| && y < |sem|
    ensures Times(ToldLayers(t, sem, x, k, layer), y) == Branches(t, x, k, y)
    decreases |sem| - x, 0, |t.children[x]| - k
  {
    if k < |t.children[x]| {
      var c := Child(t, x, k);
      var layer' := NextLayer(layer, t.nodes[c].layer, sem[c] > 0);
      var forced := !(t.nodes[c].layer <= layer' && sem[c] > 0);
      ToldOnce(t, sem, c, forced, y);
      ToldLayersOnce(t, sem, x, k + 1, layer', y);
      TimesOfBoth(Told(t, sem, c, forced), ToldLayers(t, sem, x, k + 1, layer'), y);
    }
  }

  // ----- everyone is told the right thing -----

  /** The layer -1 means "none yet" to the loop over the children: an active child with it does not
      keep back the active children of the next layer. */
  ghost predicate Clash(t: Tree, sem: seq<nat>, x: nat)
    requires Shape(t) && Counts(t, sem) && x < |sem|
  {
    exists j, k :: 0 <= j < |t.children[x]| && 0 <= k < |t.children[x]| &&
      var c, d := Child(t, x, j), Child(t, x, k);
      sem[c] > 0 && sem[d] > 0 && Foremost(t, sem, c) && t.nodes[c].layer == NONE && t.nodes[d].layer > NONE
  }

  ghost predicate Explored(t: Tree, sem: seq<nat>, x: nat, k: nat, layer: int)
    requires Shape(t) && Counts(t, sem) && x < |sem| && k < |t.children[x]|
  {
    var c := Child(t, x, k);
    t.nodes[c].layer <= NextLayer(layer, t.nodes[c].layer, sem[c] > 0) && sem[c] > 0
  }

  /** What `layer` says of the active children before the `k`-th. */
  ghost predicate LayerSoFar(t: Tree, sem: seq<nat>, x: nat, k: nat, layer: int)
    requires Shape(t) && Counts(t, sem) && x < |sem| && k <= |t.children[x]|
  {
    if layer == NONE then forall j | 0 <= j < k :: sem[Child(t, x, j)] > 0 ==> t.nodes[Child(t, x, j)].layer == NONE
    else exists j :: 0 <= j < k && sem[Child(t, x, j)] > 0 && t.nodes[Child(t, x, j)].layer == layer
  }

  lemma LayersAscend(t: Tree, x: nat, j: nat, k: nat)
    requires Shape(t) && x < |t.nodes| && j <= k < |t.children[x]|
    ensures t.nodes[Child(t, x, j)].layer <= t.nodes[Child(t, x, k)].layer
  {
    assert ChildrenOf(t.nodes, t.children[x], x, |t.nodes|);
  }

  lemma NextLayerSoFar(t: Tree, sem: seq<nat>, x: nat, k: nat, layer: int)
    requires Shape(t) && Counts(t, sem) && x < |sem| && k < |t.children[x]| && LayerSoFar(t, sem, x, k, layer)
    ensures var c := Child(t, x, k);
      LayerSoFar(t, sem, x, k + 1, NextLayer(layer, t.nodes[c].layer, sem[c] > 0))
  {
  }

  /** An active child with the least layer is always explored. */
  lemma ForemostIsExplored(t: Tree, sem: seq<nat>, x: nat, k: nat, layer: int)
    requires Shape(t) && Counts(t, sem) && x < |sem| && k < |t.children[x]| && LayerSoFar(t, sem, x, k, layer)
    requires var c := Child(t, x, k); sem[c] > 0 && Foremost(t, sem, c)
    ensures Explored(t, sem, x, k, layer)
  {
    if layer != NONE {
      var j :| 0 <= j < k && sem[Child(t, x, j)] > 0 && t.nodes[Child(t, x, j)].layer == layer;
      assert t.children[x][j] == Child(t, x, j);
    }
  }

  /** The active children before the `k`-th do not have a smaller layer. */
  ghost predicate LeastSoFar(t: Tree, sem: seq<nat>, x: nat, k: nat, layer: int)
    requires Shape(t) && Counts(t, sem) && x < |sem| && k <= |t.children[x]|
  {
    layer != NONE ==> forall j | 0 <= j < k :: sem[Child(t, x, j)] > 0 ==> t.nodes[Child(t, x, j)].layer >= layer
  }

  /** Without a clash, one active child with layer -1 means that all have it. */
  lemma NoneMeansAll(t: Tree, sem: seq<nat>, x: nat, k: nat, j: nat, i: nat)
    requires Shape(t) && Counts(t, sem) && x < |sem| && j < k <= i < |t.children[x]|
    requires !Clash(t, sem, x) && LayerSoFar(t, sem, x, k, NONE) && sem[Child(t, x, j)] > 0 && sem[Child(t, x, i)] > 0
    ensures t.nodes[Child(t, x, i)].layer == NONE
  {
    var c := Child(t, x, j);
    LayersAscend(t, x, j, i);
    forall e | 0 <= e < |t.children[x]| && sem[t.children[x][e]] > 0
      ensures t.nodes[c].layer <= t.nodes[t.children[x][e]].layer
    {
      assert t.children[x][e] == Child(t, x, e);
      if e >= k {
        LayersAscend(t, x, j, e);
      }
    }
    assert Foremost(t, sem, c);
  }

  lemma NextLeastSoFar(t: Tree, sem: seq<nat>, x: nat, k: nat, layer: int)
    requires Shape(t) && Counts(t, sem) && x < |sem| && k < |t.children[x]| && !Clash(t, sem, x)
    requires LayerSoFar(t, sem, x, k, layer) && LeastSoFar(t, sem, x, k, layer)
    ensures var c := Child(t, x, k);
      LeastSoFar(t, sem, x, k + 1, NextLayer(layer, t.nodes[c].layer, sem[c] > 0))
  {
    var c := Child(t, x, k);
    if layer == NONE && sem[c] > 0 {
      forall j | 0 <= j < k && sem[Child(t, x, j)] > 0
        ensures t.nodes[c].layer == NONE
      {
        NoneMeansAll(t, sem, x, k, j, k);
      }
    } else if layer != NONE {
      var j :| 0 <= j < k && sem[Child(t, x, j)] > 0 && t.nodes[Child(t, x, j)].layer == layer;
      LayersAscend(t, x, j, k);
    }
  }

  /** Without a clash, no other is. */
  lemma ExploredIsForemost(t: Tree, sem: seq<nat>, x: nat, k: nat, layer: int)
    requires Shape(t) && Counts(t, sem) && x < |sem| && k < |t.children[x]| && !Clash(t, sem, x)
    requires LayerSoFar(t, sem, x, k, layer) && LeastSoFar(t, sem, x, k, layer) && Explored(t, sem, x, k, layer)
    ensures Foremost(t, sem, Child(t, x, k))
  {
    var c := Child(t, x, k);
    forall j | 0 <= j < |t.children[x]| && sem[t.children[x][j]] > 0
      ensures t.nodes[c].layer <= t.nodes[t.children[x][j]].layer
    {
      assert t.children[x][j] == Child(t, x, j);
      if j >= k {
        LayersAscend(t, x, k, j);
      } else if layer == NONE {
        NoneMeansAll(t, sem, x, k, j, k);
      }
    }
  }

  /** Without clashes: nobody is told to show who is not visible, and nobody to hide who is. */
  ghost predicate Right(t: Tree, sem: seq<nat>, x: nat, forced: bool, log: Log)
    requires Shape(t) && Counts(t, sem)
  {
    forall y, b | (y, b) in log :: y < |sem| && Under(t, x, y) && b == (!forced && VisibleFrom(t, sem, x, y))
  }

  ghost predicate NoClashUnder(t: Tree, sem: seq<nat>, x: nat)
    requires Shape(t) && Counts(t, sem)
  {
    forall y: nat | y < |sem| && Under(t, x, y) && VisibleFrom(t, sem, x, y) :: !Clash(t, sem, y)
  }

  /** What is visible from a child is visible from `x` if `x` shows that child. */
  lemma {:induction false} VisibleThrough(t: Tree, sem: seq<nat>, x: nat, c: nat, y: nat)
    requires Shape(t) && Counts(t, sem) && y < |sem| && c < |sem| && Parent(t, c) == x && Under(t, c, y)
    ensures Under(t, x, y)
    ensures VisibleFrom(t, sem, x, y) <==> sem[x] > 0 && Foremost(t, sem, c) && VisibleFrom(t, sem, c, y)
    decreases y
  {
    UnderChild(t, x, c, y);
    if y != c {
      VisibleThrough(t, sem, x, c, Parent(t, y));
      UnderIsBelow(t, c, Parent(t, y));
    }
  }

  lemma {:induction false} ToldRight(t: Tree, sem: seq<nat>, x: nat, forced: bool)
    requires Shape(t) && Counts(t, sem) && x < |sem| && (!forced ==> NoClashUnder(t, sem, x))
    ensures Right(t, sem, x, forced, Told(t, sem, x, forced))
    decreases |sem| - x, 1, 0
  {
    if forced || sem[x] == 0 {
      ToldHiddenRight(t, sem, x, forced, 0);
    } else {
      ToldLayersRight(t, sem, x, 0, NONE);
    }
  }

  lemma {:induction false} InactiveHides(t: Tree, sem: seq<nat>, x: nat, y: nat)
    requires Shape(t) && Counts(t, sem) && x < |sem| && y < |sem| && sem[x] == 0
    ensures !VisibleFrom(t, sem, x, y)
    decreases y
  {
    if y != x && Parent(t, y) != NONE {
      InactiveHides(t, sem, x, Parent(t, y));
    }
  }

  lemma {:induction false} ToldHiddenRight(t: Tree, sem: seq<nat>, x: nat, forced: bool, k: nat)
    requires Shape(t) && Counts(t, sem) && x < |sem| && k <= |t.children[x]| && (forced || sem[x] == 0)
    ensures Right(t, sem, x, forced, ToldHidden(t, sem, x, k))
    decreases |sem| - x, 0, |t.children[x]| - k
  {
    if k < |t.children[x]| {
      var c := Child(t, x, k);
      ToldRight(t, sem, c, true);
      ToldHiddenRight(t, sem, x, forced, k + 1);
      forall y, b | (y, b) in Told(t, sem, c, true)
        ensures y < |sem| && Under(t, x, y) && b == (!forced && VisibleFrom(t, sem, x, y))
      {
        UnderChild(t, x, c, y);
        if !forced {
          InactiveHides(t, sem, x, y);
        }
      }
    }
  }

  /** A mark: what is known of the children before the `k`-th is used only where it is set. */
  predicate Before(k: nat) {
    true
  }

  ghost predicate SoFar(t: Tree, sem: seq<nat>, x: nat, k: nat, layer: int)
    requires Shape(t) && Counts(t, sem) && x < |sem| && k <= |t.children[x]|
  {
    forall m: nat {:trigger Before(m)} | Before(m) && m == k ::
      LayerSoFar(t, sem, x, m, layer) && LeastSoFar(t, sem, x, m, layer)
  }

  lemma SoFarStep(t: Tree, sem: seq<nat>, x: nat, k: nat, layer: int)
    requires Shape(t) && Counts(t, sem) && x < |sem| && k < |t.children[x]| && !Clash(t, sem, x) &&
      SoFar(t, sem, x, k, layer)
    ensures var c := Child(t, x, k);
      SoFar(t, sem, x, k + 1, NextLayer(layer, t.nodes[c].layer, sem[c] > 0)) &&
      (Explored(t, sem, x, k, layer) <==> sem[c] > 0 && Foremost(t, sem, c))
  {
    assert Before(k);
    NextLayerSoFar(t, sem, x, k, layer);
    NextLeastSoFar(t, sem, x, k, layer);
    ExploredExactlyWhenForemost(t, sem, x, k, layer);
  }

  lemma {:induction false} ToldLayersRight(t: Tree, sem: seq<nat>, x: nat, k: nat, layer: int)
    requires Shape(t) && Counts(t, sem) && x < |sem| && k <= |t.children[x]| && sem[x] > 0
    requires NoClashUnder(t, sem, x) && SoFar(t, sem, x, k, layer)
    ensures Right(t, sem, x, false, ToldLayers(t, sem, x, k, layer))
    decreases |sem| - x, 0, |t.children[x]| - k
  {
    if k < |t.children[x]| {
      assert !Clash(t, sem, x);
      SoFarStep(t, sem, x, k, layer);
      var c := Child(t, x, k);
      var forced, layer' := !Explored(t, sem, x, k, layer), NextLayer(layer, t.nodes[c].layer, sem[c] > 0);
      ToldLayersRight(t, sem, x, k + 1, layer');
      ChildToldRight(t, sem, x, c, forced);
      RightBoth(t, sem, x, Told(t, sem, c, forced), ToldLayers(t, sem, x, k + 1, layer'));
    }
  }

  lemma {:induction false} ChildToldRight(t: Tree, sem: seq<nat>, x: nat, c: nat, forced: bool)
    requires Shape(t) && Counts(t, sem) && x < c < |sem| && Parent(t, c) == x && sem[x] > 0
    requires forced <==> !(sem[c] > 0 && Foremost(t, sem, c))
    requires NoClashUnder(t, sem, x)
    ensures Right(t, sem, x, false, Told(t, sem, c, forced))
    decreases |sem| - x, 0, 0
  {
    VisibleThroughChild(t, sem, x, c, forced);
    ToldRight(t, sem, c, forced);
  }

  lemma RightBoth(t: Tree, sem: seq<nat>, x: nat, a: Log, b: Log)
    requires Shape(t) && Counts(t, sem) && Right(t, sem, x, false, a) && Right(t, sem, x, false, b)
    ensures Right(t, sem, x, false, a + b)
  {
  }

  lemma VisibleThroughChild(t: Tree, sem: seq<nat>, x: nat, c: nat, forced: bool)
    requires Shape(t) && Counts(t, sem) && x < |sem| && c < |sem| && Parent(t, c) == x && sem[x] > 0
    requires forced <==> !(sem[c] > 0 && Foremost(t, sem, c))
    ensures forall y: nat | y < |sem| && Under(t, c, y) ::
      Under(t, x, y) && VisibleFrom(t, sem, x, y) == (!forced && VisibleFrom(t, sem, c, y))
  {
    forall y: nat | y < |sem| && Under(t, c, y)
      ensures Under(t, x, y) && VisibleFrom(t, sem, x, y) == (!forced && VisibleFrom(t, sem, c, y))
    {
      VisibleThrough(t, sem, x, c, y);
      if sem[c] == 0 {
        InactiveHides(t, sem, c, y);
      }
    }
  }

  lemma ExploredExactlyWhenForemost(t: Tree, sem: seq<nat>, x: nat, k: nat, layer: int)
    requires Shape(t) && Counts(t, sem) && x < |sem| && k < |t.children[x]| && !Clash(t, sem, x)
    requires LayerSoFar(t, sem, x, k, layer) && LeastSoFar(t, sem, x, k, layer)
    ensures Explored(t, sem, x, k, layer) <==>
      sem[Child(t, x, k)] > 0 && Foremost(t, sem, Child(t, x, k))
  {
    if sem[Child(t, x, k)] > 0 && Foremost(t, sem, Child(t, x, k)) {
      ForemostIsExplored(t, sem, x, k, layer);
    }
    if Explored(t, sem, x, k, layer) {
      ExploredIsForemost(t, sem, x, k, layer);
    }
  }

  /** All the children explored from the `k`-th on are told as if they were roots. */
  lemma {:induction false} LayersReach(t: Tree, sem: seq<nat>, x: nat, k: nat, layer: int, j: nat, e: (nat, bool))
    requires Shape(t) && Counts(t, sem) && x < |sem| && k <= j < |t.children[x]| && LayerSoFar(t, sem, x, k, layer)
    requires var c := Child(t, x, j); sem[c] > 0 && Foremost(t, sem, c) && e in Told(t, sem, c, false)
    ensures e in ToldLayers(t, sem, x, k, layer)
    decreases j - k
  {
    if k == j {
      ForemostIsExplored(t, sem, x, k, layer);
    } else {
      var c := Child(t, x, k);
      NextLayerSoFar(t, sem, x, k, layer);
      LayersReach(t, sem, x, k + 1, NextLayer(layer, t.nodes[c].layer, sem[c] > 0), j, e);
    }
  }

  /** What a visible node tells is part of what the root tells, clash or not. */
  lemma {:induction false} VisibleReaches(t: Tree, sem: seq<nat>, x: nat, e: (nat, bool))
    requires Shape(t) && Counts(t, sem) && x < |sem| && Visible(t, sem, x) && e in Told(t, sem, x, false)
    ensures e in Told(t, sem, 0, false)
    decreases x
  {
    if x != 0 {
      var p := Parent(t, x);
      var k :| 0 <= k < |t.children[p]| && t.children[p][k] == x;
      assert Child(t, p, k) == x;
      VisibleIsActive(t, sem, p);
      LayersReach(t, sem, p, 0, NONE, k, e);
      VisibleReaches(t, sem, p, e);
    }
  }

  lemma VisibleIsActive(t: Tree, sem: seq<nat>, x: nat)
    requires Shape(t) && Counts(t, sem) && x < |sem| && Visible(t, sem, x)
    ensures sem[x] > 0
  {
  }

  /** In a clash, a child that does not have the least layer is told to show. */
  lemma {:induction false} ClashShows(t: Tree, sem: seq<nat>, x: nat, k: nat, d: nat) returns (y: nat)
    requires Shape(t) && Counts(t, sem) && x < |sem| && k <= d < |t.children[x]| && LayerSoFar(t, sem, x, k, NONE)
    requires sem[Child(t, x, d)] > 0 && t.nodes[Child(t, x, d)].layer > NONE
    requires forall j | 0 <= j < |t.children[x]| && sem[Child(t, x, j)] > 0 :: t.nodes[Child(t, x, j)].layer >= NONE
    ensures y < |sem| && Parent(t, y) == x && t.nodes[y].layer > NONE && (y, true) in ToldLayers(t, sem, x, k, NONE)
    decreases d - k
  {
    var c := Child(t, x, k);
    if sem[c] > 0 && t.nodes[c].layer > NONE {
      y := c;
      assert (y, true) in Told(t, sem, c, false);
    } else {
      NextLayerSoFar(t, sem, x, k, NONE);
      y := ClashShows(t, sem, x, k + 1, d);
    }
  }

  /** `updateVisibility` from the root tells everyone right, exactly if no visible node has a clash
      among its children. */
  lemma ToldRightExactlyWhen(t: Tree, sem: seq<nat>)
    requires Shape(t) && Counts(t, sem)
    ensures (forall y, b | (y, b) in Told(t, sem, 0, false) :: y < |sem| && b == Visible(t, sem, y)) <==>
            (forall x: nat | x < |sem| && Visible(t, sem, x) :: !Clash(t, sem, x))
  {
    if forall x: nat | x < |sem| && Visible(t, sem, x) :: !Clash(t, sem, x) {
      ToldRight(t, sem, 0, false);
    } else {
      var x: nat :| x < |sem| && Visible(t, sem, x) && Clash(t, sem, x);
      ClashMisleads(t, sem, x);
    }
  }

  lemma ClashMisleads(t: Tree, sem: seq<nat>, x: nat)
    requires Shape(t) && Counts(t, sem) && x < |sem| && Visible(t, sem, x) && Clash(t, sem, x)
    ensures exists y :: y < |sem| && (y, true) in Told(t, sem, 0, false) && !Visible(t, sem, y)
  {
    var j, d :| 0 <= j < |t.children[x]| && 0 <= d < |t.children[x]| &&
      sem[Child(t, x, j)] > 0 && sem[Child(t, x, d)] > 0 && Foremost(t, sem, Child(t, x, j)) &&
      t.nodes[Child(t, x, j)].layer == NONE && t.nodes[Child(t, x, d)].layer > NONE;
    var y := ClashReaches(t, sem, x, j, d);
    NotForemost(t, sem, x, j, y);
  }

  lemma ClashReaches(t: Tree, sem: seq<nat>, x: nat, j: nat, d: nat) returns (y: nat)
    requires Shape(t) && Counts(t, sem) && x < |sem| && Visible(t, sem, x) && j < |t.children[x]| && d < |t.children[x]|
    requires Foremost(t, sem, Child(t, x, j)) && t.nodes[Child(t, x, j)].layer == NONE
    requires sem[Child(t, x, d)] > 0 && t.nodes[Child(t, x, d)].layer > NONE
    ensures y < |sem| && Parent(t, y) == x && t.nodes[y].layer > NONE && (y, true) in Told(t, sem, 0, false)
  {
    ForemostIsLeast(t, sem, x, j);
    VisibleIsActive(t, sem, x);
    y := ClashShows(t, sem, x, 0, d);
    VisibleReaches(t, sem, x, (y, true));
  }

  lemma NotForemost(t: Tree, sem: seq<nat>, x: nat, j: nat, y: nat)
    requires Shape(t) && Counts(t, sem) && x < |sem| && j < |t.children[x]| && y < |sem| && Parent(t, y) == x
    requires sem[Child(t, x, j)] > 0 && t.nodes[Child(t, x, j)].layer < t.nodes[y].layer
    ensures !Visible(t, sem, y)
  {
    assert t.children[x][j] == Child(t, x, j);
    assert !Foremost(t, sem, y);
  }

  lemma ForemostIsLeast(t: Tree, sem: seq<nat>, x: nat, j: nat)
    requires Shape(t) && Counts(t, sem) && x < |sem| && j < |t.children[x]| && Foremost(t, sem, Child(t, x, j))
    ensures forall i | 0 <= i < |t.children[x]| && sem[Child(t, x, i)] > 0 ::
      t.nodes[Child(t, x, j)].layer <= t.nodes[Child(t, x, i)].layer
  {
    forall i | 0 <= i < |t.children[x]| && sem[Child(t, x, i)] > 0
      ensures t.nodes[Child(t, x, j)].layer <= t.nodes[Child(t, x, i)].layer
    {
      assert t.children[x][i] == Child(t, x, i);
    }
  }

  /** Layers that are not negative never clash. */
  lemma ToldRightForLayers(t: Tree, sem: seq<nat>)
    requires Shape(t) && Counts(t, sem) && forall x | 0 <= x < |t.nodes| :: t.nodes[x].layer >= 0
    ensures forall y: nat | y < |sem| ::
      Times(Told(t, sem, 0, false), y) == 1 && forall b | (y, b) in Told(t, sem, 0, false) :: b == Visible(t, sem, y)
  {
    ToldRightExactlyWhen(t, sem);
    forall y: nat | y < |sem|
      ensures Times(Told(t, sem, 0, false), y) == 1
    {
      ToldOnce(t, sem, 0, false, y);
      RootIsAbove(t, y);
    }
  }

  lemma {:induction false} RootIsAbove(t: Tree, y: nat)
    requires Shape(t) && y < |t.nodes|
    ensures Under(t, 0, y)
    decreases y
  {
    if y != 0 {
      RootIsAbove(t, Parent(t, y));
    }
  }
}
