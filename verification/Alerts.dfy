/** Alert activation: signals, protocols, enablers and the items on the display
    (canquick/amjsonsignal.cpp, amjsonprotocol.cpp, amjsonenableraction.cpp,
    amjsongraphicitemaction.cpp). The objects are numbered; emitting a signal calls the slots that
    are connected to it, in order. */
module Alerts {
  import opened Lists
  import opened Wrappers

  datatype Argument = Text(text: string) | Numbers(whole: nat, frac: nat, unit: nat)

  datatype Kind = GraphicItem | Enabler | Other

  datatype Target = ToProtocol(p: nat) | ToSignal(s: nat)

  /** What a signal, or a row of its value table, acts on. An item may be shown with an argument
      fixed in the table. */
  datatype Action = Show(item: nat, fixed: Option<Argument>) | Enable(targets: seq<Target>) | Elsewhere

  /** A value table, and the order in which the container goes through its values. */
  datatype Table = Table(rows: map<int, nat>, order: seq<int>)

  datatype Signal = Signal(protocol: nat, kind: Kind, action: nat, table: Option<Table>)

  /** The parts that are set up once. `roster` are the signals of a protocol. */
  datatype Setup = Setup(actions: seq<Action>, signals: seq<Signal>, roster: seq<seq<nat>>,
                         hasArguments: seq<bool>, isText: seq<bool>)

  /** An item and what is known of its arguments. */
  datatype Item = Item(activators: seq<nat>, received: bool, text: Argument, numbers: Argument)

  datatype Content = Plain | With(argument: Argument)

  predicate Fits(u: Setup, a: nat, kind: Kind) {
    a < |u.actions| &&
    match u.actions[a]
    case Show(item, _) => kind == GraphicItem && item < |u.hasArguments|
    case Enable(targets) => kind == Enabler &&
      forall t | t in targets :: if t.ToProtocol? then t.p < |u.roster| else t.s < |u.signals|
    case Elsewhere => kind == Other
  }

  predicate SignalFits(u: Setup, s: Signal) {
    s.protocol < |u.roster| &&
    match s.table
    case None => Fits(u, s.action, s.kind)
    case Some(table) =>
      (forall v | v in table.rows :: Fits(u, table.rows[v], s.kind)) &&
      forall k | 0 <= k < |table.order| :: table.order[k] in table.rows
  }

  predicate SetUp(u: Setup) {
    |u.hasArguments| == |u.isText| &&
    (forall s | 0 <= s < |u.signals| :: SignalFits(u, u.signals[s]) && s in u.roster[u.signals[s].protocol]) &&
    (forall p, k | 0 <= p < |u.roster| && 0 <= k < |u.roster[p]| ::
       u.roster[p][k] < |u.signals| && u.signals[u.roster[p][k]].protocol == p)
  }

  // ----- items and the display -----

  predicate IsShown(u: Setup, item: Item, i: nat)
    requires i < |u.hasArguments|
  {
    item.activators != [] && (u.hasArguments[i] ==> item.received)
  }

  function ContentOf(u: Setup, item: Item, i: nat): Content
    requires i < |u.hasArguments| == |u.isText|
  {
    if !u.hasArguments[i] then Plain else With(if u.isText[i] then item.text else item.numbers)
  }

  /** The display shows an item exactly when something activates it and the arguments it needs have
      come since it was last inactive, and it shows the latest arguments. */
  ghost predicate DisplayRight(u: Setup, items: seq<Item>, display: map<nat, Content>) {
    |items| == |u.hasArguments| == |u.isText| &&
    (forall i | i in display :: i < |items|) &&
    forall i: nat | i < |items| :: ItemRight(u, items[i], display, i)
  }

  ghost predicate ItemRight(u: Setup, item: Item, display: map<nat, Content>, i: nat)
    requires i < |u.hasArguments| == |u.isText|
  {
    (i in display <==> IsShown(u, item, i)) && (i in display ==> display[i] == ContentOf(u, item, i))
  }

  function Without(xs: seq<nat>, x: nat): seq<nat> {
    if xs == [] then []
    else if xs[0] == x then xs[1..]
    else [xs[0]] + Without(xs[1..], x)
  }

  lemma {:induction false} WithoutOne(xs: seq<nat>, x: nat)
    requires Distinct(xs)
    ensures Distinct(Without(xs, x)) && x !in Without(xs, x)
    ensures forall y | y != x :: y in Without(xs, x) <==> y in xs
    ensures |xs| != 1 && x in xs ==> Without(xs, x) != []
    ensures |Without(xs, x)| <= |xs|
  {
    if xs != [] {
      assert forall y :: y in xs <==> y == xs[0] || y in xs[1..];
      if xs[0] != x {
        WithoutOne(xs[1..], x);
        var r := Without(xs[1..], x);
        assert Without(xs, x) == [xs[0]] + r;
        assert xs[0] !in r;
      }
    }
  }

  /** The item has received the argument, if there is one, and otherwise kept what it had. */
  predicate Took(was: Item, now: Item, fixed: Option<Argument>) {
    match fixed
    case None => now.text == was.text && now.numbers == was.numbers
    case Some(Text(_)) => now.received && now.text == fixed.value && now.numbers == was.numbers
    case Some(Numbers(_, _, _)) => now.received && now.text == was.text && now.numbers == fixed.value
  }

  /** The argument that action `a` brings item `i`. */
  function Brings(u: Setup, a: Option<nat>, i: nat): Option<Argument>
    requires a.Some? ==> Fits(u, a.value, Kind.GraphicItem)
  {
    if a.Some? && u.actions[a.value].item == i then u.actions[a.value].fixed else None
  }

  // ----- who may be an activator -----

  /** `s` would act on item `i`. */
  predicate ActsOn(u: Setup, s: nat, active: seq<Option<nat>>, i: nat)
    requires SetUp(u) && |active| == |u.signals|
  {
    s < |u.signals| && u.signals[s].kind == GraphicItem &&
    var a := if u.signals[s].table.None? then Some(u.signals[s].action) else active[s];
    a.Some? && a.value < |u.actions| && u.actions[a.value].Show? && u.actions[a.value].item == i
  }

  /** Activators are enabled signals of enabled protocols; those of a protocol in `busy`, and the
      signal `going`, are about to be taken off. */
  ghost predicate Permitted(u: Setup, sigOff: seq<seq<nat>>, protOff: seq<seq<nat>>, busy: set<nat>, going: int, s: nat)
    requires |sigOff| == |u.signals| && |protOff| == |u.roster| && SetUp(u) && s < |u.signals|
  {
    s == going || (sigOff[s] == [] && (protOff[u.signals[s].protocol] == [] || u.signals[s].protocol in busy))
  }

  ghost predicate ActivatorsRight(u: Setup, items: seq<Item>, active: seq<Option<nat>>,
                                  sigOff: seq<seq<nat>>, protOff: seq<seq<nat>>, busy: set<nat>, going: int)
  {
    SetUp(u) && |active| == |sigOff| == |u.signals| && |protOff| == |u.roster| &&
    (forall s: nat | s < |sigOff| :: Distinct(sigOff[s])) &&
    forall i: nat | i < |items| ::
      Distinct(items[i].activators) &&
      forall s | s in items[i].activators :: ActsOn(u, s, active, i) && Permitted(u, sigOff, protOff, busy, going, s)
  }

  /** The table rows in use are rows of the table. */
  ghost predicate ActiveFits(u: Setup, active: seq<Option<nat>>) {
    |active| == |u.signals| &&
    forall s: nat | s < |active| && active[s].Some? :: Fits(u, active[s].value, u.signals[s].kind)
  }

  /** The activators of one item change, none but `s` being new. */
  lemma ActivatorsStay(u: Setup, items: seq<Item>, items': seq<Item>, active: seq<Option<nat>>, sigOff: seq<seq<nat>>,
                       protOff: seq<seq<nat>>, busy: set<nat>, going: int, i: nat, s: nat)
    requires ActivatorsRight(u, items, active, sigOff, protOff, busy, going) && i < |items|
    requires |items'| == |items| && forall k: nat | k < |items| && k != i :: items'[k] == items[k]
    requires Distinct(items'[i].activators)
    requires forall x | x in items'[i].activators ::
      x in items[i].activators || (x == s && ActsOn(u, s, active, i) && Permitted(u, sigOff, protOff, busy, going, s))
    ensures ActivatorsRight(u, items', active, sigOff, protOff, busy, going)
  {
  }

  class Network {
    const u: Setup
    var items: seq<Item>
    var display: map<nat, Content>
    var active: seq<Option<nat>>
    var sigOff: seq<seq<nat>>
    var protOff: seq<seq<nat>>

    /** The display is right, and so are the activators but for those about to be taken off. */
    ghost predicate Holds(busy: set<nat>, going: int := -1)
      reads this
    {
      SetUp(u) && DisplayRight(u, items, display) && ActiveFits(u, active) &&
      ActivatorsRight(u, items, active, sigOff, protOff, busy, going)
    }

    ghost predicate Valid()
      reads this
    {
      Holds({})
    }

    // ----- the display, as the main process guards it (canquick/mainprocess.cpp:241-288, 306-345) -----

    method DisplayActivate(i: nat, content: Content)
      modifies this`display
      ensures display == if i in old(display) then old(display) else old(display)[i := content]
    {
      if i !in display {
        display := display[i := content];
      }
    }

    method DisplayDeactivate(i: nat)
      modifies this`display
      ensures display == old(display) - {i}
    {
      display := display - {i};
    }

    // ----- an item (canquick/amjsongraphicitemaction.cpp:74-222) -----

    method Activate(i: nat, again: bool)
      requires i < |items| == |u.hasArguments| == |u.isText|
      modifies this`display
      ensures display ==
        if items[i].activators != [] && !again then old(display)
        else
          var rest := if items[i].activators != [] then old(display) - {i} else old(display);
          if i !in rest && (u.hasArguments[i] ==> items[i].received) then rest[i := ContentOf(u, items[i], i)] else rest
    {
      var activated := items[i].activators != [];
      if !activated || again {
        if again && activated {
          DisplayDeactivate(i);
        }
        if !u.hasArguments[i] {
          DisplayActivate(i, Plain);
        } else if items[i].received {
          DisplayActivate(i, With(if u.isText[i] then items[i].text else items[i].numbers));
        }
      }
    }

    method Deactivate(i: nat)
      requires i < |items|
      modifies this`display, this`items
      ensures if old(items[i].activators) == [] then items == old(items) && display == old(display)
              else items == old(items)[i := old(items)[i].(received := false)] && display == old(display) - {i}
    {
      if items[i].activators != [] {
        DisplayDeactivate(i);
        items := items[i := items[i].(received := false)];
      }
    }

    /** `process` of an item: the sender becomes an activator or ceases to be one. The first activator
        shows the item, the last one takes it off and forgets its arguments. */
    method ProcessItem(i: nat, sender: nat, on: bool)
      requires DisplayRight(u, items, display) && i < |items| && Distinct(items[i].activators)
      modifies this`display, this`items
      ensures DisplayRight(u, items, display)
      ensures var was := old(items)[i];
        var now := if !on then Without(was.activators, sender)
                   else if sender in was.activators then was.activators else was.activators + [sender];
        items == old(items)[i := was.(activators := now,
                                      received := was.received && (was.activators != [] ==> now != []))]
    {
      WithoutOne(items[i].activators, sender);
      WithoutOther(items[i].activators, sender);
      var listed := sender in items[i].activators;
      if on {
        if !listed {
          Activate(i, false);
          items := items[i := items[i].(activators := items[i].activators + [sender])];
        }
      } else if listed {
        if |items[i].activators| == 1 {
          Deactivate(i);
        }
        items := items[i := items[i].(activators := Without(items[i].activators, sender))];
      }
    }

    /** The item hides itself (canquick/rootedtreenode.cpp:157-168). */
    method ForceDeactivation(i: nat)
      requires DisplayRight(u, items, display) && i < |items|
      modifies this`display, this`items
      ensures DisplayRight(u, items, display)
      ensures var was := old(items)[i];
        items == old(items)[i := was.(activators := [], received := was.received && was.activators == [])]
    {
      Deactivate(i);
      items := items[i := items[i].(activators := [])];
    }

    /** An argument of either kind is complete. */
    method ArgumentComplete(i: nat, argument: Argument)
      requires DisplayRight(u, items, display) && i < |items|
      modifies this`display, this`items
      ensures DisplayRight(u, items, display)
      ensures items == old(items)[i := if argument.Text? then old(items)[i].(text := argument, received := true)
                                       else old(items)[i].(numbers := argument, received := true)]
    {
      var changed := argument != if argument.Text? then items[i].text else items[i].numbers;
      items := items[i := if argument.Text? then items[i].(text := argument) else items[i].(numbers := argument)];
      if items[i].activators != [] {
        if !items[i].received {
          items := items[i := items[i].(received := true)];
          Activate(i, true);
        } else if changed {
          Activate(i, true);
        }
      }
      items := items[i := items[i].(received := true)];
    }
  
    // ----- signals and protocols -----

    /** Signal `s` starts or stops activating the item of action `a`. */
    method ProcessShow(a: nat, s: nat, on: bool, ghost busy: set<nat>, ghost going: int := -1)
      requires Holds(busy, going) && Fits(u, a, Kind.GraphicItem)
      requires on ==> ActsOn(u, s, active, u.actions[a].item) && Permitted(u, sigOff, protOff, busy, going, s)
      modifies this`display, this`items
      ensures Holds(busy, going)
      ensures |items| == |old(items)|
      ensures forall i: nat | i < |items| && i != u.actions[a].item :: items[i] == old(items)[i]
      ensures Took(old(items)[u.actions[a].item], items[u.actions[a].item], if on then u.actions[a].fixed else None)
      ensures !on || u.actions[a].fixed.None? ==>
        var was := old(items)[u.actions[a].item];
        items[u.actions[a].item].received == (was.received && (on || was.activators != [s]))
      ensures (s in items[u.actions[a].item].activators) == on
      ensures forall x | x != s :: x in items[u.actions[a].item].activators <==>
        x in old(items)[u.actions[a].item].activators
    {
      var i := u.actions[a].item;
      if on && u.actions[a].fixed.Some? {
        ghost var was := items;
        ArgumentComplete(i, u.actions[a].fixed.value);
        ActivatorsStay(u, was, items, active, sigOff, protOff, busy, going, i, s);
      }
      ghost var was := items;
      WithoutOne(items[i].activators, s);
      ProcessItem(i, s, on);
      ActivatorsStay(u, was, items, active, sigOff, protOff, busy, going, i, s);
    }

    /** A signal acts on one item only, so off this item it is off all. */
    ghost predicate Idle(s: nat)
      reads this
    {
      forall i: nat | i < |items| :: s !in items[i].activators
    }

    /** `deactivateAllGraphicItems` (canquick/amjsonsignal.cpp:553-583). */
    method DeactivateAll(s: nat, ghost busy: set<nat>, ghost going: int := -1)
      requires Holds(busy, going) && s < |u.signals|
      modifies this`display, this`items, this`active
      ensures Holds(busy, going) && Idle(s)
      ensures forall x | old(Idle(x)) :: Idle(x)
    {
      var sig := u.signals[s];
      if sig.kind == Kind.GraphicItem {
        if sig.table.None? {
          ProcessShow(sig.action, s, false, busy, going);
        } else if active[s].Some? {
          var a := active[s].value;
          ghost var was, wasActive := items, active;
          active := active[s := None];
          WithoutOne(items[u.actions[a].item].activators, s);
          ProcessItem(u.actions[a].item, s, false);
          ActivatorsStay(u, was, items, wasActive, sigOff, protOff, busy, going, u.actions[a].item, s);
        }
      }
    }
  
    /** The protocols that are enabled. */
    ghost function Live(): set<nat>
      reads this
    {
      set p: nat | p < |protOff| && protOff[p] == []
    }

    /** The enabler `e` keeps the target off. */
    ghost predicate Off(t: Target, e: nat)
      reads this
    {
      match t
      case ToProtocol(p) => p < |protOff| && e in protOff[p]
      case ToSignal(s) => s < |sigOff| && e in sigOff[s]
    }

    /** Everything connected to the enabler `e` is off because of it. */
    ghost predicate AllOff(e: nat)
      reads this
    {
      e < |u.actions| && u.actions[e].Enable? && forall t | t in u.actions[e].targets :: Off(t, e)
    }

    /** Nothing connected to the enabler `e` is off because of it. */
    ghost predicate AllOn(e: nat)
      reads this
    {
      e < |u.actions| && u.actions[e].Enable? && forall t | t in u.actions[e].targets :: !Off(t, e)
    }

    /** Other enablers keep off what they kept off. */
    twostate predicate OthersKeep(e: nat)
      reads this
    {
      forall t: Target, d: nat | d != e :: Off(t, d) == old(Off(t, d))
    }

    /** `e` keeps nothing more off than before. */
    twostate predicate OnlyOn(e: nat)
      reads this
    {
      forall t: Target :: Off(t, e) ==> old(Off(t, e))
    }

    /** What switching off does: what is off stays off, and nothing starts to activate. */
    twostate predicate OnlyOff()
      reads this
    {
      |protOff| == |old(protOff)| && |sigOff| == |old(sigOff)| && Live() <= old(Live()) &&
      (forall t: Target, e: nat | old(Off(t, e)) :: Off(t, e)) &&
      (forall x | old(Idle(x)) :: Idle(x))
    }

    /** The target is connected to the enabler `d`. */
    predicate Connected(t: Target, d: nat) {
      d < |u.actions| && u.actions[d].Enable? && t in u.actions[d].targets
    }

    /** Signal `s` switches by the enabler `d`, for some value. */
    ghost predicate Uses(s: nat, d: nat) {
      s < |u.signals| && u.signals[s].kind == Enabler &&
      match u.signals[s].table
      case None => u.signals[s].action == d
      case Some(table) => exists v :: v in table.rows && table.rows[v] == d
    }

    /** One of the signals of protocol `p` does. */
    ghost predicate Drives(p: int, d: nat) {
      0 <= p < |u.roster| && exists s :: s in u.roster[p] && Uses(s, d)
    }

    /** Protocol `q` has been disabled since. */
    twostate predicate Fallen(q: nat)
      reads this
    {
      q in old(Live()) && q !in Live()
    }

    /** Nothing else goes off: only what is connected to the enabler `e`, to one of the signals of protocol `p`, or
        to one of a protocol that has been disabled on the way. */
    twostate predicate Cascade(e: int, p: int)
      reads this
    {
      forall t: Target, d: nat | Off(t, d) && !old(Off(t, d)) ::
        Connected(t, d) && (d == e || Drives(p, d) || exists q: nat :: Fallen(q) && Drives(q, d))
    }

    /** The slot of a signal (canquick/amjsonsignal.cpp:503-529). */
    method EnableDisableSignal(s: nat, e: nat, on: bool, ghost busy: set<nat>)
      requires Holds(busy) && s < |u.signals|
      modifies this`display, this`items, this`active, this`sigOff
      ensures Holds(busy)
      ensures sigOff == old(sigOff)[s := if on then Without(old(sigOff)[s], e)
                                         else if e in old(sigOff)[s] then old(sigOff)[s] else old(sigOff)[s] + [e]]
      ensures on ==> OthersKeep(e) && OnlyOn(e) && !Off(ToSignal(s), e)
      ensures forall x | old(Idle(x)) :: Idle(x)
    {
      WithoutOne(sigOff[s], e);
      WithoutOther(sigOff[s], e);
      var before := sigOff[s] == [];
      if !on && e !in sigOff[s] {
        sigOff := sigOff[s := sigOff[s] + [e]];
        if before {
          DeactivateAll(s, busy, s);
        }
      } else if on && e in sigOff[s] {
        sigOff := sigOff[s := Without(sigOff[s], e)];
      }
    }

    /** `emit enableDisableConnected(onOff)` of the enabler `e`: all slots connected to it. */
    method Emit(e: nat, on: bool, ghost busy: set<nat>)
      requires Holds(busy) && Fits(u, e, Enabler)
      modifies this`display, this`items, this`active, this`sigOff, this`protOff
      ensures Holds(busy) && if on then AllOn(e) && OthersKeep(e) else OnlyOff() && AllOff(e) && Cascade(e, -1)
      decreases Live(), 3
    {
      if on {
        EmitOn(e, busy);
      } else {
        EmitOff(e, busy);
      }
    }

    method EmitOn(e: nat, ghost busy: set<nat>)
      requires Holds(busy) && Fits(u, e, Enabler)
      modifies this`display, this`items, this`active, this`sigOff, this`protOff
      ensures Holds(busy) && AllOn(e) && OthersKeep(e)
    {
      var targets := u.actions[e].targets;
      for k := 0 to |targets|
        invariant Holds(busy) && OthersKeep(e) && OnlyOn(e) && forall j | 0 <= j < k :: !Off(targets[j], e)
      {
        assert targets[k] in targets;
        EnableTarget(targets[k], e, busy);
      }
    }

    method EnableTarget(t: Target, e: nat, ghost busy: set<nat>)
      requires Holds(busy) && if t.ToSignal? then t.s < |u.signals| else t.p < |u.roster|
      modifies this`display, this`items, this`active, this`sigOff, this`protOff
      ensures Holds(busy) && OthersKeep(e) && OnlyOn(e) && !Off(t, e)
    {
      match t
      case ToSignal(s) => EnableDisableSignal(s, e, true, busy);
      case ToProtocol(p) => EnableProtocol(p, e, busy);
    }

    method EmitOff(e: nat, ghost busy: set<nat>)
      requires Holds(busy) && Fits(u, e, Enabler)
      modifies this`display, this`items, this`active, this`sigOff, this`protOff
      ensures Holds(busy) && OnlyOff() && AllOff(e) && Cascade(e, -1)
      decreases Live(), 2
    {
      var targets := u.actions[e].targets;
      for k := 0 to |targets|
        invariant Holds(busy) && OnlyOff() && forall j | 0 <= j < k :: Off(targets[j], e)
        invariant Cascade(e, -1)
      {
        assert targets[k] in targets;
        DisableTarget(targets[k], e, busy);
      }
    }

    method DisableTarget(t: Target, e: nat, ghost busy: set<nat>)
      requires Holds(busy) && Connected(t, e) && if t.ToSignal? then t.s < |u.signals| else t.p < |u.roster|
      modifies this`display, this`items, this`active, this`sigOff, this`protOff
      ensures Holds(busy) && OnlyOff() && Off(t, e) && Cascade(e, -1)
      decreases Live(), 2, 0
    {
      match t
      case ToSignal(s) => EnableDisableSignal(s, e, false, busy);
      case ToProtocol(p) => DisableProtocol(p, e, busy);
    }

    /** The slot of a protocol (canquick/amjsonprotocol.cpp:155-199), switching on. */
    method EnableProtocol(p: nat, e: nat, ghost busy: set<nat>)
      requires Holds(busy) && p < |u.roster|
      modifies this`protOff
      ensures Holds(busy) && protOff == old(protOff)[p := Remove(old(protOff)[p], e)]
      ensures OthersKeep(e) && OnlyOn(e) && !Off(ToProtocol(p), e)
    {
      RemoveAll(protOff[p], e);
      protOff := protOff[p := Remove(protOff[p], e)];
    }

    /** The slot of a protocol, switching off. Everything its enablers keep on goes off as well, which
        may come back to this protocol; then its own items are taken off the display. */
    method DisableProtocol(p: nat, e: nat, ghost busy: set<nat>)
      requires Holds(busy) && p < |u.roster| && Connected(ToProtocol(p), e)
      modifies this`display, this`items, this`active, this`sigOff, this`protOff
      ensures Holds(busy) && OnlyOff() && Off(ToProtocol(p), e) && Cascade(e, -1)
      ensures old(protOff[p]) == [] ==> forall k | 0 <= k < |u.roster[p]| :: Triggered(u.roster[p][k])
      decreases Live(), 1
    {
      var before := protOff[p] == [];
      if e !in protOff[p] {
        assert before ==> p in Live();
        protOff := protOff[p := protOff[p] + [e]];
        assert protOff[p][|old(protOff)[p]|] == e && forall x | x in old(protOff)[p] :: x in protOff[p];
        assert forall x :: x in protOff[p] <==> x in old(protOff)[p] || x == e;
      }
      assert Cascade(e, -1);
      assert Off(ToProtocol(p), e) && OnlyOff();
      if before {
        assert Live() < old(Live());
        TriggerEnablers(p, busy + {p});
        DeactivateRoster(p, busy);
        assert Fallen(p);
      }
    }

    /** If the signal is an enabler, all it can enable is off. */
    ghost predicate Triggered(s: nat)
      reads this
    {
      s < |u.signals| && (u.signals[s].kind == Enabler ==>
        match u.signals[s].table
        case None => AllOff(u.signals[s].action)
        case Some(table) => forall k | 0 <= k < |table.order| && table.order[k] in table.rows ::
          AllOff(table.rows[table.order[k]]))
    }

    method TriggerEnablers(p: nat, ghost busy: set<nat>)
      requires Holds(busy) && p < |u.roster| == |protOff| && protOff[p] != []
      modifies this`display, this`items, this`active, this`sigOff, this`protOff
      ensures Holds(busy) && OnlyOff() && forall k | 0 <= k < |u.roster[p]| :: Triggered(u.roster[p][k])
      ensures Cascade(-1, p)
      decreases Live(), 5
    {
      var roster := u.roster[p];
      for k := 0 to |roster|
        invariant Holds(busy) && OnlyOff() && forall j | 0 <= j < k :: Triggered(roster[j])
        invariant Cascade(-1, p)
      {
        var s := roster[k];
        assert s == u.roster[p][k];
        assert SignalFits(u, u.signals[s]);
        if u.signals[s].kind == Enabler {
          TriggerAll(s, p, busy);
        }
      }
    }

    /** `triggerAllDisablers` (canquick/amjsonsignal.cpp:531-550). */
    method TriggerAll(s: nat, ghost p: nat, ghost busy: set<nat>)
      requires Holds(busy) && p < |u.roster| && s in u.roster[p]
      requires s < |u.signals| && u.signals[s].kind == Enabler && SignalFits(u, u.signals[s])
      modifies this`display, this`items, this`active, this`sigOff, this`protOff
      ensures Holds(busy) && OnlyOff() && Triggered(s) && Cascade(-1, p)
      decreases Live(), 4
    {
      if u.signals[s].table.None? {
        Emit(u.signals[s].action, false, busy);
      } else {
        var table := u.signals[s].table.value;
        for k := 0 to |table.order|
          invariant Holds(busy) && OnlyOff() && forall j | 0 <= j < k :: AllOff(table.rows[table.order[j]])
          invariant Cascade(-1, p)
        {
          var v := table.order[k];
          assert v in table.rows && Fits(u, table.rows[v], Enabler);
          Emit(table.rows[v], false, busy);
        }
      }
    }

    method DeactivateRoster(p: nat, ghost busy: set<nat>)
      requires Holds(busy + {p}) && p < |u.roster| == |protOff| && protOff[p] != []
      modifies this`display, this`items, this`active
      ensures Holds(busy)
      ensures forall x | old(Idle(x)) :: Idle(x)
    {
      var roster := u.roster[p];
      for k := 0 to |roster|
        invariant Holds(busy + {p})
        invariant forall x | old(Idle(x)) :: Idle(x)
        invariant forall j | 0 <= j < k :: Idle(roster[j])
      {
        var s := roster[k];
        assert s == u.roster[p][k];
        if sigOff[s] == [] && u.signals[s].kind == Kind.GraphicItem {
          DeactivateAll(s, busy + {p});
        }
      }
    }
  
    // ----- frames and runs -----

    predicate Enabled(s: nat)
      requires s < |u.signals| == |sigOff| && u.signals[s].protocol < |protOff|
      reads this
    {
      protOff[u.signals[s].protocol] == [] && sigOff[s] == []
    }

    static function Row(table: Table, value: int, valid: bool): Option<nat> {
      if valid && value in table.rows then Some(table.rows[value]) else None
    }

    /** What signal `s` leaves of the items when it turns to action `to`: other signals are on them as before;
        an argument that the action brings is taken over and on the display, and no other changes; an item
        that only `s` activated forgets that it has received any, unless the signal just `stays` on it. */
    ghost predicate Switched(was: seq<Item>, s: nat, to: Option<nat>, stays: bool)
      requires to.Some? ==> Fits(u, to.value, Kind.GraphicItem)
      reads this
    {
      |items| == |was| == |u.hasArguments| == |u.isText| &&
      (forall i: nat, x | i < |items| && x != s :: x in items[i].activators <==> x in was[i].activators) &&
      (forall i: nat | i < |items| ::
         Took(was[i], items[i], Brings(u, to, i)) &&
         (Brings(u, to, i).None? ==> items[i].received == (was[i].received && (stays || was[i].activators != [s])))) &&
      (to.Some? && u.actions[to.value].fixed.Some? ==>
        var i, argument := u.actions[to.value].item, u.actions[to.value].fixed.value;
        i in display && (u.hasArguments[i] && u.isText[i] == argument.Text? ==> display[i] == With(argument)))
    }

    /** `process` of a signal on a frame (canquick/amjsonsignal.cpp:364-417). `on` is what a value means
        for a signal without a table, `valid` whether the second value is in the domain, and `updated`
        whether it is new to the row. */
    method Process(s: nat, value: int, on: bool, valid: bool, updated: bool)
      requires Valid() && s < |u.signals|
      modifies this`display, this`items, this`active, this`sigOff, this`protOff
      ensures Valid()
      ensures old(!Enabled(s)) ==>
        items == old(items) && display == old(display) && active == old(active) &&
        sigOff == old(sigOff) && protOff == old(protOff)
      ensures old(Enabled(s)) && u.signals[s].kind == Kind.GraphicItem ==>
        var sig := u.signals[s];
        var to := if sig.table.Some? then Row(sig.table.value, value, valid) else if on then Some(sig.action) else None;
        if sig.table.Some? && to == old(active)[s] && !(to.Some? && updated)
        then items == old(items) && display == old(display)
        else (forall i: nat | i < |items| :: s in items[i].activators <==> to.Some? && u.actions[to.value].item == i) &&
             active == (if sig.table.Some? then old(active)[s := to] else old(active)) &&
             sigOff == old(sigOff) && protOff == old(protOff) && Switched(old(items), s, to, sig.table.None? && on)
      ensures old(Enabled(s)) && u.signals[s].kind == Enabler && u.signals[s].table.None? ==>
        if on then AllOn(u.signals[s].action) && OthersKeep(u.signals[s].action)
        else AllOff(u.signals[s].action) && Cascade(u.signals[s].action, -1)
      ensures old(Enabled(s)) && u.signals[s].kind == Enabler && u.signals[s].table.Some? ==>
        var to := Row(u.signals[s].table.value, value, valid);
        to != old(active)[s] ==>
          active[s] == to && if to.Some? then AllOn(to.value) else AllOff(old(active)[s].value)
    {
      var sig := u.signals[s];
      assert SignalFits(u, sig);
      if Enabled(s) {
        if sig.table.Some? {
          var to := Row(sig.table.value, value, valid);
          if to != active[s] || (to.Some? && updated) {
            if sig.kind == Kind.GraphicItem {
              SwitchRow(s, to);
            } else {
              SwitchOtherRow(s, to);
            }
          }
        } else if sig.kind == Kind.GraphicItem {
          ProcessShow(sig.action, s, on, {});
        } else {
          ProcessOther(sig.action, sig.kind, on);
        }
      }
    }

    method ProcessOther(a: nat, kind: Kind, on: bool)
      requires Valid() && Fits(u, a, kind) && kind != Kind.GraphicItem
      modifies this`display, this`items, this`active, this`sigOff, this`protOff
      ensures Valid()
      ensures kind == Enabler ==> if on then AllOn(a) && OthersKeep(a) else AllOff(a) && Cascade(a, -1)
    {
      if kind == Enabler {
        Emit(a, on, {});
      }
    }

    /** The row in use of another kind of signal changes: off with the old one, on with the new one. */
    method SwitchOtherRow(s: nat, to: Option<nat>)
      requires Valid() && s < |u.signals| && u.signals[s].kind != Kind.GraphicItem
      requires to.Some? ==> Fits(u, to.value, u.signals[s].kind)
      modifies this`display, this`items, this`active, this`sigOff, this`protOff
      ensures Valid() && s < |active| && active[s] == to
      ensures u.signals[s].kind == Enabler ==>
        if to.Some? then AllOn(to.value) else old(active)[s].Some? ==> AllOff(old(active)[s].value)
    {
      var was := active[s];
      if was.Some? {
        ProcessOther(was.value, u.signals[s].kind, false);
      }
      if to.Some? {
        ProcessOther(to.value, u.signals[s].kind, true);
      }
      active := active[s := to];
    }

    /** The row in use changes: off the item of the old one, on to that of the new one. */
    method SwitchRow(s: nat, to: Option<nat>)
      requires Valid() && s < |u.signals| && u.signals[s].kind == Kind.GraphicItem && u.signals[s].table.Some?
      requires sigOff[s] == [] && protOff[u.signals[s].protocol] == []
      requires to.Some? ==> Fits(u, to.value, Kind.GraphicItem)
      modifies this`display, this`items, this`active
      ensures Valid() && active == old(active)[s := to] && Switched(old(items), s, to, false)
      ensures forall i: nat | i < |items| :: s in items[i].activators <==> to.Some? && u.actions[to.value].item == i
    {
      LeaveRow(s);
      active := active[s := to];
      if to.Some? {
        ProcessShow(to.value, s, true, {});
      }
    }

    /** Off the item of the row in use. */
    method LeaveRow(s: nat)
      requires Valid() && s < |u.signals| && u.signals[s].kind == Kind.GraphicItem && u.signals[s].table.Some?
      modifies this`display, this`items
      ensures Valid() && Idle(s) && |items| == |old(items)|
      ensures forall i: nat | i < |items| :: Took(old(items)[i], items[i], None)
      ensures forall i: nat | i < |items| ::
        items[i].received == (old(items)[i].received && old(items)[i].activators != [s])
      ensures forall i: nat, x | i < |items| && x != s :: x in items[i].activators <==> x in old(items)[i].activators
    {
      assert forall i: nat | i < |items| && s in items[i].activators :: ActsOn(u, s, active, i);
      assert forall i: nat | i < |items| && items[i].activators == [s] :: s in items[i].activators;
      if active[s].Some? {
        ProcessShow(active[s].value, s, false, {});
      }
    }
  
    /** Setting up: nothing is shown, and then every enabler switches off what is connected to it
        (canquick/amjsonenableraction.cpp:13-34). */
    constructor (setup: Setup)
      requires SetUp(setup) && |setup.hasArguments| == |setup.isText|
      ensures Valid() && u == setup
      ensures forall e: nat | e < |u.actions| && Fits(u, e, Enabler) :: AllOff(e)
    {
      u := setup;
      items := seq(|setup.hasArguments|, _ => Item([], false, Text(""), Numbers(0, 0, 0)));
      display := map[];
      active := seq(|setup.signals|, _ => None);
      sigOff := seq(|setup.signals|, _ => []);
      protOff := seq(|setup.roster|, _ => []);
      new;
      for e := 0 to |u.actions|
        invariant Valid()
        invariant forall d: nat | d < e && Fits(u, d, Enabler) :: AllOff(d)
      {
        if Fits(u, e, Enabler) {
          Emit(e, false, {});
        }
      }
    }

    /** Any run of frames, completed arguments and forced deactivations. */
    method Run(events: seq<Event>)
      requires Valid()
      modifies this`display, this`items, this`active, this`sigOff, this`protOff
      ensures Valid()
      ensures forall i: nat, s | i < |items| && s in items[i].activators :: s < |u.signals| && Enabled(s)
      ensures forall i: nat | i < |items| :: i in display <==> IsShown(u, items[i], i)
    {
      for k := 0 to |events|
        invariant Valid()
      {
        match events[k]
        case Frame(s, value, on, valid, updated) =>
          if s < |u.signals| {
            Process(s, value, on, valid, updated);
          }
        case Complete(i, argument) =>
          if i < |items| {
            ghost var was := items;
            ArgumentComplete(i, argument);
            ActivatorsStay(u, was, items, active, sigOff, protOff, {}, -1, i, 0);
          }
        case Force(i) =>
          if i < |items| {
            ghost var was := items;
            ForceDeactivation(i);
            ActivatorsStay(u, was, items, active, sigOff, protOff, {}, -1, i, 0);
          }
      }
    }
  }

  datatype Event =
    | Frame(s: nat, value: int, on: bool, valid: bool, updated: bool)
    | Complete(i: nat, argument: Argument)
    | Force(i: nat)

  /** `erase(remove(...))` */
  function Remove(xs: seq<nat>, x: nat): seq<nat> {
    if xs == [] then [] else (if xs[0] == x then [] else [xs[0]]) + Remove(xs[1..], x)
  }

  lemma {:induction false} RemoveAll(xs: seq<nat>, x: nat)
    ensures forall y :: y in Remove(xs, x) <==> y in xs && y != x
    ensures xs == [] ==> Remove(xs, x) == []
  {
    if xs != [] {
      RemoveAll(xs[1..], x);
      assert xs == [xs[0]] + xs[1..];
    }
  }

  lemma {:induction false} WithoutOther(xs: seq<nat>, x: nat)
    ensures x !in xs ==> Without(xs, x) == xs
    ensures |xs| == 1 && x in xs ==> Without(xs, x) == []
  {
    if xs != [] && xs[0] != x {
      WithoutOther(xs[1..], x);
    }
  }
}
