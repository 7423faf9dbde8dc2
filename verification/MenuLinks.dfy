/** The links between menu entries (at91bootstrap/config/expr.h:161-173) and what a well-linked stretch of them is.
    Entries are numbered in the order in which the parser created them (at91bootstrap/config/menu.c:51-65), the
    root menu being 0, so a menu holds a stretch of consecutive numbers. */
module MenuLinks {
  const NULL := -1

  /** The three pointers of every entry, and, for the proof only, `end`: the number after the last
      entry inside it. */
  datatype Links = Links(next: seq<int>, list: seq<int>, parent: seq<int>, end: seq<nat>)

  predicate Sized(m: Links) {
    |m.next| == |m.list| == |m.parent| == |m.end|
  }

  /** A mark: what is said of all entries is used only for those that carry it. */
  predicate Entry(i: nat) {
    true
  }

  ghost predicate Nested(end: seq<nat>, lo: nat, hi: nat) {
    lo <= hi <= |end| &&
    (forall i: nat {:trigger Entry(i)} | Entry(i) && lo <= i < hi :: i < end[i] <= hi) &&
    (forall i: nat, j: nat {:trigger Entry(i), Entry(j)} | Entry(i) && Entry(j) && lo <= i < j < hi && j < end[i] ::
       end[j] <= end[i])
  }

  /** Nothing that starts between `from` and `i` reaches past `i`. */
  ghost predicate Clear(end: seq<nat>, from: nat, i: nat)
    requires i <= |end|
  {
    forall k: nat {:trigger Entry(k)} | Entry(k) && from <= k < i :: end[k] <= i
  }

  /** The parent pointer of `i` names the innermost entry around it, or `owner` if none is. */
  ghost predicate HeldBy(m: Links, lo: nat, owner: int, i: nat)
    requires Sized(m) && i < |m.end|
  {
    if m.parent[i] == owner then Clear(m.end, lo, i)
    else lo <= m.parent[i] < i < m.end[m.parent[i]] && Clear(m.end, m.parent[i] + 1, i)
  }

  ghost predicate Linked(m: Links, owner: int, lim: nat, i: nat)
    requires Sized(m) && i < |m.end|
    requires m.parent[i] == owner || 0 <= m.parent[i] < |m.end|
  {
    var bound := if m.parent[i] == owner then lim else m.end[m.parent[i]];
    m.list[i] == (if m.end[i] > i + 1 then i + 1 else NULL) &&
    m.next[i] == (if m.end[i] < bound then m.end[i] else NULL)
  }

  /** The entries from `lo` to `hi` are a list of entries with what is inside them, held by `owner`;
      the list goes on at `hi` if that is before `lim`. */
  ghost predicate Forest(m: Links, lo: nat, hi: nat, owner: int, lim: nat) {
    Sized(m) && owner < lo && hi <= lim && Nested(m.end, lo, hi) &&
    forall i: nat {:trigger Entry(i)} | Entry(i) && lo <= i < hi :: HeldBy(m, lo, owner, i) && Linked(m, owner, lim, i)
  }

  /** Same links for all entries in the range. */
  ghost predicate SameOn(m: Links, m': Links, lo: nat, hi: nat) {
    Sized(m) && Sized(m') && |m.end| == |m'.end| && lo <= hi <= |m.end| &&
    forall i: nat {:trigger Entry(i)} | Entry(i) && lo <= i < hi ::
      m'.next[i] == m.next[i] && m'.list[i] == m.list[i] && m'.parent[i] == m.parent[i] && m'.end[i] == m.end[i]
  }

  lemma ForestIsLocal(m: Links, m': Links, lo: nat, hi: nat, owner: int, lim: nat)
    requires Forest(m, lo, hi, owner, lim) && SameOn(m, m', lo, hi)
    ensures Forest(m', lo, hi, owner, lim)
  {
    forall i: nat {:trigger Entry(i)} | Entry(i) && lo <= i < hi
      ensures HeldBy(m', lo, owner, i) && Linked(m', owner, lim, i)
    {
      assert HeldBy(m, lo, owner, i) && Linked(m, owner, lim, i);
      if m.parent[i] != owner { assert Entry(m.parent[i]); }
    }
  }

  /** A list falls into what its first entry holds and the rest. */
  lemma Split(m: Links, lo: nat, hi: nat, owner: int, lim: nat)
    requires Forest(m, lo, hi, owner, lim) && lo < hi
    ensures m.parent[lo] == owner && lo < m.end[lo] <= hi
    ensures m.next[lo] == (if m.end[lo] < lim then m.end[lo] else NULL)
    ensures m.list[lo] == (if m.end[lo] > lo + 1 then lo + 1 else NULL)
    ensures Forest(m, lo, m.end[lo], owner, lim) && Forest(m, m.end[lo], hi, owner, lim)
  {
    assert Entry(lo) && HeldBy(m, lo, owner, lo);
    var mid := m.end[lo];
    forall i: nat {:trigger Entry(i)} | Entry(i) && lo <= i < mid
      ensures HeldBy(m, lo, owner, i) && Linked(m, owner, lim, i)
    {
      assert HeldBy(m, lo, owner, i) && Linked(m, owner, lim, i);
      if m.parent[i] != owner { assert Entry(m.parent[i]); }
    }
    assert Clear(m.end, lo, mid);
    forall i: nat {:trigger Entry(i)} | Entry(i) && mid <= i < hi
      ensures HeldBy(m, mid, owner, i) && Linked(m, owner, lim, i)
    {
      assert HeldBy(m, lo, owner, i) && Linked(m, owner, lim, i);
      if m.parent[i] != owner { assert Entry(m.parent[i]); }
    }
  }

  lemma Append(m: Links, lo: nat, mid: nat, hi: nat, owner: int, lim: nat)
    requires Forest(m, lo, mid, owner, lim) && Forest(m, mid, hi, owner, lim)
    ensures Forest(m, lo, hi, owner, lim)
  {
    forall i: nat {:trigger Entry(i)} | Entry(i) && lo <= i < hi
      ensures HeldBy(m, lo, owner, i) && Linked(m, owner, lim, i)
    {
      if i < mid {
        assert HeldBy(m, lo, owner, i) && Linked(m, owner, lim, i);
        if m.parent[i] != owner {
          assert Entry(m.parent[i]);
        }
      } else {
        assert HeldBy(m, mid, owner, i) && Linked(m, owner, lim, i);
      }
    }
  }

  /** What an entry with something inside it holds. */
  lemma Inside(m: Links, lo: nat, owner: int, lim: nat)
    requires lo < |m.end| && lo < m.end[lo] && Forest(m, lo, m.end[lo], owner, lim)
    ensures Forest(m, lo + 1, m.end[lo], lo, m.end[lo])
  {
    var e := m.end[lo];
    assert Entry(lo);
    forall i: nat {:trigger Entry(i)} | Entry(i) && lo + 1 <= i < e
      ensures HeldBy(m, lo + 1, lo, i) && Linked(m, lo, e, i)
    {
      assert HeldBy(m, lo, owner, i) && Linked(m, owner, lim, i);
      if m.parent[i] != owner { assert Entry(m.parent[i]); }
    }
  }

  /** An entry and what it holds. */
  lemma Wrap(m: Links, lo: nat, owner: int, lim: nat)
    requires lo < |m.end| && owner < lo && lo < m.end[lo] <= lim && Sized(m)
    requires Forest(m, lo + 1, m.end[lo], lo, m.end[lo])
    requires m.parent[lo] == owner && Linked(m, owner, lim, lo)
    ensures Forest(m, lo, m.end[lo], owner, lim)
  {
    var e := m.end[lo];
    assert Entry(lo);
    forall i: nat {:trigger Entry(i)} | Entry(i) && lo <= i < e
      ensures HeldBy(m, lo, owner, i) && Linked(m, owner, lim, i)
    {
      if i > lo {
        assert HeldBy(m, lo + 1, lo, i) && Linked(m, lo, e, i);
      }
    }
  }

  /** Only the first entry of what it holds points to the owner. */
  lemma Reparent(m: Links, lo: nat, owner: int, lim: nat, owner': int)
    requires lo < |m.end| && Forest(m, lo, m.end[lo], owner, lim) && owner' < lo && lo < m.end[lo]
    ensures Forest(m.(parent := m.parent[lo := owner']), lo, m.end[lo], owner', lim)
  {
    Inside(m, lo, owner, lim);
    var m' := m.(parent := m.parent[lo := owner']);
    ForestIsLocal(m, m', lo + 1, m.end[lo], lo, m.end[lo]);
    assert Entry(lo) && HeldBy(m, lo, owner, lo);
    assert Linked(m, owner, lim, lo);
    Wrap(m', lo, owner', lim);
  }

  /** Only the last entry of a list knows where the list goes on. */
  lemma Relimit(m: Links, lo: nat, hi: nat, owner: int, lim: nat, last: nat, lim': nat)
    requires Forest(m, lo, hi, owner, lim) && lo <= last < hi && m.end[last] == hi && m.parent[last] == owner
    requires hi <= lim'
    ensures Forest(m.(next := m.next[last := if hi < lim' then hi else NULL]), lo, hi, owner, lim')
  {
    var m' := m.(next := m.next[last := if hi < lim' then hi else NULL]);
    forall i: nat {:trigger Entry(i)} | Entry(i) && lo <= i < hi
      ensures HeldBy(m', lo, owner, i) && Linked(m', owner, lim', i)
    {
      assert HeldBy(m, lo, owner, i) && Linked(m, owner, lim, i);
      if m.parent[i] != owner { assert Entry(m.parent[i]); }
      if m.parent[i] == owner && i != last {
        assert Entry(last) && HeldBy(m, lo, owner, last);
        assert i < last ==> m.end[i] <= last;
      }
    }
  }

  lemma SameOnTwice(m: Links, m': Links, m'': Links, lo: nat, hi: nat)
    requires SameOn(m, m', lo, hi) && SameOn(m', m'', lo, hi)
    ensures SameOn(m, m'', lo, hi)
  {
  }

  /** The first entry of a list moves to the end of the list before it. */
  lemma TakeOne(m: Links, m': Links, lo: nat, cur: nat, hi: nat, from: int, to: int)
    requires Forest(m, lo, cur, to, hi) && Forest(m, cur, hi, from, hi) && cur < hi
    requires m' == m.(parent := m.parent[cur := to])
    ensures Forest(m', lo, m.end[cur], to, hi) && Forest(m', m.end[cur], hi, from, hi)
    ensures SameOn(m, m', 0, cur) && SameOn(m, m', m.end[cur], |m.end|)
    ensures cur < m.end[cur] <= hi && m.next[cur] == (if m.end[cur] < hi then m.end[cur] else NULL)
  {
    Split(m, cur, hi, from, hi);
    Reparent(m, cur, from, hi, to);
    ForestIsLocal(m, m', lo, cur, to, hi);
    ForestIsLocal(m, m', m.end[cur], hi, from, hi);
    Append(m', lo, cur, m.end[cur], to, hi);
  }

  /** Without its list, `menu` is an entry like those that were on it. */
  lemma HandedOver(m: Links, m': Links, p: nat, menu: nat, last: nat, after: nat, hi: nat)
    requires p < menu < last < after <= hi && Sized(m) && after <= |m.end|
    requires m.end[last] == after && m.parent[last] == p && m.parent[menu] == p
    requires Forest(m, menu + 1, after, p, after) && Forest(m, after, hi, p, hi)
    requires m' == m.(next := m.next[last := if after < hi then after else NULL][menu := menu + 1],
                      list := m.list[menu := NULL], end := m.end[menu := menu + 1])
    ensures Forest(m', menu, hi, p, hi)
  {
    Relimit(m, menu + 1, after, p, after, last, hi);
    var linked := m.(next := m.next[last := if after < hi then after else NULL]);
    ForestIsLocal(m, linked, after, hi, p, hi);
    Append(linked, menu + 1, after, hi, p, hi);
    Closed(linked, m', p, menu, hi);
  }

  lemma Closed(m: Links, m': Links, p: nat, menu: nat, hi: nat)
    requires p < menu && menu + 1 < hi && Forest(m, menu + 1, hi, p, hi) && m.parent[menu] == p
    requires m' == m.(next := m.next[menu := menu + 1], list := m.list[menu := NULL], end := m.end[menu := menu + 1])
    ensures Forest(m', menu, hi, p, hi)
  {
    ForestIsLocal(m, m', menu + 1, hi, p, hi);
    assert HeldBy(m', menu, p, menu) && Linked(m', p, hi, menu);
    assert Forest(m', menu, menu + 1, p, hi);
    Append(m', menu, menu + 1, hi, p, hi);
  }

  /** With the links of the first and the last closed, the entries up to `at` are the list of `p`. */
  lemma Gathered(m: Links, m': Links, p: nat, last: nat, at: nat, hi: nat, owner: int)
    requires Sized(m) && owner < p < last < at <= hi <= |m.end| && m.parent[p] == owner
    requires m.end[last] == at && m.parent[last] == p
    requires Forest(m, p + 1, at, p, hi) && Forest(m, at, hi, owner, hi)
    requires m' == m.(list := m.list[p := p + 1], end := m.end[p := at],
                      next := m.next[p := if at < hi then at else NULL][last := NULL])
    ensures Forest(m', p, hi, owner, hi)
    ensures SameOn(m, m', 0, p) && SameOn(m, m', at, |m.end|)
  {
    Relimit(m, p + 1, at, p, hi, last, at);
    ForestIsLocal(m.(next := m.next[last := NULL]), m', p + 1, at, p, at);
    Wrap(m', p, owner, hi);
    ForestIsLocal(m, m', at, hi, owner, hi);
    Append(m', p, at, hi, owner, hi);
  }

  /** Nothing is inside `i`, so what follows it in file order is what follows the outermost entry
      that ends with it. */
  lemma Climb(m: Links, n: nat, i: nat, a: nat)
    requires Forest(m, 0, n, NULL, n) && n == |m.end| && a <= i < n && m.end[a] == i + 1
    ensures m.next[a] == NULL || m.next[a] == i + 1 < n
    ensures m.next[a] == NULL && m.parent[a] == NULL ==> i + 1 == n
    ensures m.next[a] == NULL && m.parent[a] != NULL ==> 0 <= m.parent[a] < a && m.end[m.parent[a]] == i + 1
  {
    assert Entry(a) && HeldBy(m, 0, NULL, a) && Linked(m, NULL, n, a);
    if m.parent[a] != NULL {
      assert Entry(m.parent[a]);
    }
  }

  /** In the range, an entry without a title holds nothing, unless it is on the list of `owner`. */
  ghost predicate Trimmed(m: Links, titled: set<nat>, lo: nat, hi: nat, owner: int) {
    Sized(m) && hi <= |m.end| &&
    forall i: nat {:trigger Entry(i)} | Entry(i) && lo <= i < hi && i !in titled && m.parent[i] != owner ::
      m.end[i] == i + 1
  }

  ghost predicate AllTrimmed(m: Links, titled: set<nat>, lo: nat, hi: nat) {
    Sized(m) && hi <= |m.end| &&
    forall i: nat {:trigger Entry(i)} | Entry(i) && lo <= i < hi && i !in titled :: m.end[i] == i + 1
  }

  /** What the entry `lo` holds, trimmed, goes on the list of `owner`. */
  lemma TrimmedFurther(m: Links, titled: set<nat>, start: nat, lo: nat, hi: nat, owner: int)
    requires Trimmed(m, titled, start, lo, owner) && lo < hi && AllTrimmed(m, titled, lo + 1, hi)
    requires Sized(m) && hi <= |m.end| && m.parent[lo] == owner
    ensures Trimmed(m, titled, start, hi, owner)
  {
  }

  /** What follows `at` on the list of `p` has changed; what came before goes on with `at` and what it holds. */
  lemma StepOver(m: Links, m': Links, p: nat, at: nat, hi: nat)
    requires Forest(m, p + 1, at, p, hi) && p < at < hi <= |m.end| == |m'.end|
    requires SameOn(m, m', 0, at) && Forest(m', at, hi, p, hi)
    ensures at < m'.end[at] <= hi && m'.next[at] == if m'.end[at] < hi then m'.end[at] else NULL
    ensures m'.parent[at] == p && Forest(m', p + 1, m'.end[at], p, hi) && Forest(m', m'.end[at], hi, p, hi)
  {
    ForestIsLocal(m, m', p + 1, at, p, hi);
    Split(m', at, hi, p, hi);
    Append(m', p + 1, at, m'.end[at], p, hi);
  }

  /** The entry `at` on the list of `p` has been finalized. */
  lemma ListStep(m: Links, m': Links, titled: set<nat>, p: nat, at: nat, hi: nat)
    requires Forest(m, p + 1, at, p, hi) && Trimmed(m, titled, p + 1, at, p) && p < at < hi <= |m.end| == |m'.end|
    requires SameOn(m, m', 0, at) && Forest(m', at, hi, p, hi)
    requires Sized(m') && AllTrimmed(m', titled, at + 1, m'.end[at])
    ensures at < m'.end[at] <= hi && m'.next[at] == if m'.end[at] < hi then m'.end[at] else NULL
    ensures Forest(m', p + 1, m'.end[at], p, hi) && Forest(m', m'.end[at], hi, p, hi)
    ensures Trimmed(m', titled, p + 1, m'.end[at], p)
  {
    StepOver(m, m', p, at, hi);
    TrimmedFurther(m', titled, p + 1, at, m'.end[at], p);
  }

  /** `p` takes over what is on the list of `menu`, and has come to `at`. */
  ghost predicate Adopting(m: Links, m': Links, p: nat, menu: nat, at: nat, after: nat) {
    Forest(m', menu + 1, at, p, after) && Forest(m', at, after, menu, after) &&
    SameOn(m, m', 0, menu + 1) && SameOn(m, m', after, |m.end|) && m' == m.(parent := m'.parent) &&
    forall i: nat {:trigger Entry(i)} | Entry(i) && i < |m.end| :: m'.parent[i] in {p, m.parent[i]}
  }

  lemma AdoptStart(m: Links, p: nat, menu: nat, after: nat)
    requires p < menu && menu + 1 < after && Forest(m, menu + 1, after, menu, after)
    ensures Adopting(m, m, p, menu, menu + 1, after)
  {
  }

  lemma AdoptStep(m: Links, was: Links, now: Links, p: nat, menu: nat, at: nat, after: nat)
    requires Adopting(m, was, p, menu, at, after) && p < menu < at < after
    requires now == was.(parent := was.parent[at := p])
    ensures at < now.end[at] <= after && now.parent[at] == p
    ensures Adopting(m, now, p, menu, now.end[at], after)
    ensures now.next[at] == if now.end[at] < after then now.end[at] else NULL
  {
    TakeOne(was, now, menu + 1, at, after, menu, p);
    SameOnTwice(m, was, now, 0, menu + 1);
    SameOnTwice(m, was, now, after, |m.end|);
  }

  /** `p` has taken over the entries behind it up to `at`. */
  ghost predicate Taking(m: Links, m': Links, p: nat, at: nat, hi: nat, owner: int) {
    p < at && Forest(m', p + 1, at, p, hi) && Forest(m', at, hi, owner, hi) &&
    SameOn(m, m', 0, p + 1) && SameOn(m, m', at, |m.end|)
  }

  /** Once its place is settled, the entry `at` gets `p` as its parent. */
  lemma TakeStep(m: Links, was: Links, mid: Links, now: Links, p: nat, at: nat, hi: nat, owner: int)
    requires Taking(m, was, p, at, hi, owner) && owner < p && at < hi && Forest(mid, at, hi, owner, hi)
    requires SameOn(was, mid, 0, at) && SameOn(was, mid, mid.end[at], |was.end|)
    requires now == mid.(parent := mid.parent[at := p])
    ensures at < now.end[at] <= hi && now.next[at] == if now.end[at] < hi then now.end[at] else NULL
    ensures Taking(m, now, p, now.end[at], hi, owner)
  {
    ForestIsLocal(was, mid, p + 1, at, p, hi);
    TakeOne(mid, now, p + 1, at, hi, owner, p);
    SameOnTwice(m, was, now, 0, p + 1);
    SameOnTwice(m, was, now, now.end[at], |m.end|);
  }

  /** The entries before `at` on the list of `p` have been flattened. */
  ghost predicate Flattening(m: Links, m': Links, titled: set<nat>, p: nat, at: nat, hi: nat) {
    Forest(m', p + 1, at, p, hi) && Forest(m', at, hi, p, hi) && Trimmed(m', titled, at, hi, p) &&
    SameOn(m, m', 0, p + 1) && SameOn(m, m', hi, |m.end|) &&
    forall i: nat {:trigger Entry(i)} | Entry(i) && p < i < hi ::
      m'.end[i] == if i >= at || i in titled then m.end[i] else i + 1
  }

  lemma FlattenStep(m: Links, was: Links, now: Links, titled: set<nat>, p: nat, at: nat, hi: nat)
    requires Flattening(m, was, titled, p, at, hi) && p < at < hi
    requires Forest(now, at, hi, p, hi) && SameOn(was, now, 0, at) && SameOn(was, now, hi, |m.end|)
    requires now.end == if at in titled then was.end else was.end[at := at + 1]
    requires forall i: nat {:trigger Entry(i)} | Entry(i) && i < |m.end| :: now.parent[i] in {p, was.parent[i]}
    ensures at < now.end[at] <= hi && now.next[at] == if now.end[at] < hi then now.end[at] else NULL
    ensures Flattening(m, now, titled, p, now.end[at], hi)
  {
    StepOver(was, now, p, at, hi);
    Inside(now, at, p, hi);
    SameOnTwice(m, was, now, hi, |m.end|);
    FlattenedInside(was, now, titled, p, at, hi);
  }

  /** What an entry passed over holds was flat already. */
  lemma FlattenedInside(was: Links, now: Links, titled: set<nat>, p: nat, at: nat, hi: nat)
    requires p < at < hi && Forest(was, at, hi, p, hi) && Trimmed(was, titled, at, hi, p) && Sized(now)
    requires |now.end| == |was.end| && now.end == if at in titled then was.end else was.end[at := at + 1]
    ensures now.end[at] <= hi
    ensures forall i: nat {:trigger Entry(i)} | Entry(i) && at <= i < now.end[at] && i !in titled :: now.end[i] == i + 1
  {
    Split(was, at, hi, p, hi);
    Inside(was, at, p, hi);
    forall i: nat {:trigger Entry(i)} | Entry(i) && at <= i < now.end[at] && i !in titled
      ensures now.end[i] == i + 1
    {
      if i > at {
        assert HeldBy(was, at + 1, at, i);
      }
    }
  }
}
