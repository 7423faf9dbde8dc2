/** How the parser links the menu entries as it reads them (at91bootstrap/config/menu.c:45-82). */
module MenuBuilding {
  import opened MenuLinks

  /** Where the next entry will be hooked in (`last_entry_ptr`). */
  datatype Slot = NextOf(i: nat) | ListOf(i: nat)

  /** `p` is open: entries are being added to it or to something inside it, and it reaches to the end. */
  predicate IsOpen(end: seq<nat>, menu: nat, k: nat)
    requires k < |end|
  {
    k <= menu < end[k]
  }

  /** All open menus take in one more entry. */
  function Grown(end: seq<nat>, menu: nat): (r: seq<nat>)
    ensures |r| == |end| + 1
  {
    seq(|end|, k requires 0 <= k < |end| => if IsOpen(end, menu, k) then |end| + 1 else end[k]) + [|end| + 1]
  }

  function Hooked(m: Links, slot: Slot, menu: nat): Links {
    var n := |m.next|;
    var next, list := m.next + [NULL], m.list + [NULL];
    Links.Links(
      if slot.NextOf? && slot.i < n then next[slot.i := n] else next,
      if slot.ListOf? && slot.i < |m.list| then list[slot.i := n] else list,
      m.parent + [menu], Grown(m.end, menu))
  }

  ghost predicate Building(m: Links, slot: Slot, menu: nat) {
    var n := |m.end|;
    Forest(m, 0, n, NULL, n) && menu < n && m.end[0] == n == m.end[menu] &&
    match slot
    case ListOf(i) => i == menu && n == menu + 1
    case NextOf(i) => i < n && m.parent[i] == menu && m.end[i] == n
  }

  /** Whoever reaches to the end is open or is what was hooked in last. */
  lemma OnlyLastReachesEnd(m: Links, slot: Slot, menu: nat, k: nat)
    requires Building(m, slot, menu) && k < |m.end| && m.end[k] == |m.end| && !IsOpen(m.end, menu, k)
    requires m.parent[k] != NULL ==> 0 <= m.parent[k] < |m.end| && IsOpen(m.end, menu, m.parent[k])
    ensures slot == NextOf(k)
  {
    var n := |m.end|;
    assert Entry(0) && Entry(k) && Entry(menu) && HeldBy(m, 0, NULL, k);
    if slot.NextOf? {
      assert Entry(slot.i) && HeldBy(m, 0, NULL, slot.i);
    }
  }

  lemma HookedIsBuilding(m: Links, slot: Slot, menu: nat)
    requires Building(m, slot, menu)
    ensures Building(Hooked(m, slot, menu), NextOf(|m.end|), menu)
  {
    var m', n := Hooked(m, slot, menu), |m.end|;
    assert Entry(0) && Entry(menu);
    forall i: nat, j: nat {:trigger Entry(i), Entry(j)} | Entry(i) && Entry(j) && i < j <= n && j < m'.end[i]
      ensures m'.end[j] <= m'.end[i]
    {
    }
    forall k: nat {:trigger Entry(k)} | Entry(k) && k < n + 1
      ensures HeldBy(m', 0, NULL, k) && Linked(m', NULL, n + 1, k)
    {
      if k < n {
        HookedEntry(m, slot, menu, k);
      }
    }
  }

  lemma HookedEntry(m: Links, slot: Slot, menu: nat, k: nat)
    requires Building(m, slot, menu) && k < |m.end|
    ensures HeldBy(Hooked(m, slot, menu), 0, NULL, k) && Linked(Hooked(m, slot, menu), NULL, |m.end| + 1, k)
  {
    OpenReachesEnd(m, slot, menu, k);
    HookedHeld(m, slot, menu, k);
    if IsOpen(m.end, menu, k) {
      HookedOpen(m, slot, menu, k);
    } else {
      HookedClosed(m, slot, menu, k);
    }
  }

  lemma OpenReachesEnd(m: Links, slot: Slot, menu: nat, k: nat)
    requires Building(m, slot, menu) && k < |m.end|
    ensures IsOpen(m.end, menu, k) ==> m.end[k] == |m.end|
    ensures if k == 0 then m.parent[k] == NULL else 0 <= m.parent[k] < k && m.end[k] <= m.end[m.parent[k]]
    ensures k != 0 && IsOpen(m.end, menu, k) ==> IsOpen(m.end, menu, m.parent[k])
    ensures IsOpen(m.end, menu, 0)
  {
    assert Entry(0) && Entry(menu) && Entry(k) && HeldBy(m, 0, NULL, k);
    if m.parent[k] != NULL {
      assert Entry(m.parent[k]);
    }
  }

  lemma HookedHeld(m: Links, slot: Slot, menu: nat, k: nat)
    requires Building(m, slot, menu) && k < |m.end|
    ensures HeldBy(Hooked(m, slot, menu), 0, NULL, k)
  {
    assert Entry(0) && Entry(menu) && Entry(k) && HeldBy(m, 0, NULL, k);
    if m.parent[k] != NULL {
      assert Entry(m.parent[k]);
    }
  }

  lemma HookedOpen(m: Links, slot: Slot, menu: nat, k: nat)
    requires Building(m, slot, menu) && k < |m.end| && IsOpen(m.end, menu, k)
    requires HeldBy(Hooked(m, slot, menu), 0, NULL, k)
    ensures Linked(Hooked(m, slot, menu), NULL, |m.end| + 1, k)
  {
    OpenReachesEnd(m, slot, menu, k);
    assert Entry(k) && Linked(m, NULL, |m.end|, k);
    if k != 0 {
      OpenReachesEnd(m, slot, menu, m.parent[k]);
    }
    if slot.NextOf? {
      OpenReachesEnd(m, slot, menu, slot.i);
    }
  }

  lemma HookedClosed(m: Links, slot: Slot, menu: nat, k: nat)
    requires Building(m, slot, menu) && k < |m.end| && !IsOpen(m.end, menu, k)
    requires HeldBy(Hooked(m, slot, menu), 0, NULL, k)
    ensures Linked(Hooked(m, slot, menu), NULL, |m.end| + 1, k)
  {
    OpenReachesEnd(m, slot, menu, k);
    assert Entry(k) && Linked(m, NULL, |m.end|, k);
    var p := m.parent[k];
    OpenReachesEnd(m, slot, menu, p);
    if IsOpen(m.end, menu, p) && m.end[k] == |m.end| {
      OnlyLastReachesEnd(m, slot, menu, k);
    }
  }

  /** The parser builds the tree entry by entry (at91bootstrap/config/menu.c:45-82). */
  class MenuBuilder {
    var next: seq<int>
    var list: seq<int>
    var parent: seq<int>
    var currentEntry: nat
    var currentMenu: nat
    var last: Slot
    ghost var end: seq<nat>

    ghost function Links(): Links
      reads this
    {
      MenuLinks.Links.Links(next, list, parent, end)
    }

    ghost predicate Valid()
      reads this
    {
      Building(Links(), last, currentMenu) && currentEntry == |next| - 1
    }

    /** `menu_init`: the root menu, open. */
    constructor ()
      ensures Valid() && |next| == 1
    {
      next, list, parent := [NULL], [NULL], [NULL];
      currentEntry, currentMenu, last := 0, 0, ListOf(0);
      end := [1];
    }

    /** `menu_add_entry` */
    method AddEntry()
      requires Valid()
      modifies this
      ensures Valid() && |next| == |old(next)| + 1
      ensures last == NextOf(currentEntry) && currentMenu == old(currentMenu) &&
        parent == old(parent) + [old(currentMenu)]
    {
      HookedIsBuilding(Links(), last, currentMenu);
      var n := |next|;
      next, list, parent := next + [NULL], list + [NULL], parent + [currentMenu];
      match last {
        case NextOf(i) => next := next[i := n];
        case ListOf(i) => list := list[i := n];
      }
      end := Grown(end, currentMenu);
      last, currentEntry := NextOf(n), n;
    }

    /** `menu_add_menu`, after `menu_add_entry`: the new entry is a menu. */
    method AddMenu()
      requires Valid() && last == NextOf(currentEntry)
      modifies this`last, this`currentMenu
      ensures Valid() && currentMenu == currentEntry
    {
      last, currentMenu := ListOf(currentEntry), currentEntry;
    }

    /** `menu_end_menu`, but not for the root menu. */
    method EndMenu()
      requires Valid() && currentMenu != 0
      modifies this`last, this`currentMenu
      ensures Valid() && currentMenu == old(parent[currentMenu]) && last == NextOf(old(currentMenu))
    {
      assert Entry(0) && Entry(currentMenu) && HeldBy(Links(), 0, NULL, currentMenu);
      assert parent[currentMenu] != NULL ==> Entry(parent[currentMenu]);
      last := NextOf(currentMenu);
      currentMenu := parent[currentMenu];
    }
  }
}
