/**
 The circular intrusive lists of the buddy allocators (buddy_helper.hpp): a link pair inside every
 free cell and one sentinel per level.  Link number `c < cells` belongs to cell `c`; link number
 `cells + l` is the sentinel of level `l`.
 */
module FreeLists {

  /** The `i`-th link of ring `l`: the sentinel at both ends, the listed cells in between. */
  ghost function At(cells: nat, lists: seq<seq<nat>>, l: nat, i: nat): nat
    requires l < |lists| && i <= |lists[l]| + 1
  {
    if i == 0 || i == |lists[l]| + 1 then cells + l else lists[l][i - 1]
  }

  ghost predicate SameAt(lists: seq<seq<nat>>, l: nat, i: nat, j: nat) {
    l < |lists| && i < |lists[l]| && j < |lists[l]| && lists[l][i] == lists[l][j]
  }

  /** No list holds a cell twice. */
  ghost predicate Distinct(lists: seq<seq<nat>>) {
    forall l, i, j :: SameAt(lists, l, i, j) ==> i == j
  }

  /** `where` names the list that holds the listed cell `c`. */
  ghost predicate HeldBy(lists: seq<seq<nat>>, where: map<nat, nat>, c: nat) {
    c in where && where[c] < |lists| && c in lists[where[c]]
  }

  /** The cell at place `i` of list `l` is a cell and is known to be in that list. */
  ghost predicate Known(cells: nat, lists: seq<seq<nat>>, where: map<nat, nat>, l: nat, i: nat)
    requires l < |lists| && i < |lists[l]|
  {
    lists[l][i] in where && where[lists[l][i]] == l && lists[l][i] < cells
  }

  ghost predicate Located(cells: nat, lists: seq<seq<nat>>, where: map<nat, nat>) {
    (forall c {:trigger HeldBy(lists, where, c)} :: c in where ==> HeldBy(lists, where, c)) &&
    (forall l, i :: 0 <= l < |lists| && 0 <= i < |lists[l]| ==> Known(cells, lists, where, l, i))
  }

  /** Links `i` and `i + 1` of ring `l` point at each other. */
  ghost predicate Joined(cells: nat, lists: seq<seq<nat>>, next: seq<nat>, prev: seq<nat>, l: nat, i: nat)
    requires l < |lists| && i <= |lists[l]|
  {
    var a, b := At(cells, lists, l, i), At(cells, lists, l, i + 1);
    a < |next| && b < |prev| && next[a] == b && prev[b] == a
  }

  ghost predicate Linked(cells: nat, lists: seq<seq<nat>>, next: seq<nat>, prev: seq<nat>) {
    forall l, i :: 0 <= l < |lists| && 0 <= i <= |lists[l]| ==> Joined(cells, lists, next, prev, l, i)
  }

  ghost predicate Sound(cells: nat, lists: seq<seq<nat>>, next: seq<nat>, prev: seq<nat>, where: map<nat, nat>) {
    && |next| == |prev| == cells + |lists|
    && Distinct(lists)
    && Located(cells, lists, where)
    && Linked(cells, lists, next, prev)
  }

  /** Two places of the rings hold the same link only when they are the same place, the two ends of a ring being one. */
  lemma AtDistinct(cells: nat, lists: seq<seq<nat>>, where: map<nat, nat>, l: nat, i: nat, m: nat, j: nat)
    requires Distinct(lists) && Located(cells, lists, where)
    requires l < |lists| && i <= |lists[l]| + 1 && m < |lists| && j <= |lists[m]| + 1
    ensures At(cells, lists, l, i) == At(cells, lists, m, j) ==>
      l == m && (i == j || (i == 0 && j == |lists[l]| + 1) || (j == 0 && i == |lists[l]| + 1))
  {
    if 0 < i <= |lists[l]| {
      assert Known(cells, lists, where, l, i - 1);
    }
    if 0 < j <= |lists[m]| {
      assert Known(cells, lists, where, m, j - 1);
    }
    if l == m && 0 < i <= |lists[l]| && 0 < j <= |lists[l]| && lists[l][i - 1] == lists[l][j - 1] {
      assert SameAt(lists, l, i - 1, j - 1);
    }
  }

  // Unlinking

  ghost function Without(s: seq<nat>, i: nat): seq<nat>
    requires i < |s|
  {
    s[..i] + s[i + 1..]
  }

  /** Taking one link out joins its two neighbours and leaves every other pair as it was. */
  lemma Unlinked(cells: nat, lists: seq<seq<nat>>, next: seq<nat>, prev: seq<nat>, where: map<nat, nat>,
                                    l: nat, i: nat)
    requires Sound(cells, lists, next, prev, where)
    requires l < |lists| && i < |lists[l]|
    ensures var x, p, n := lists[l][i], At(cells, lists, l, i), At(cells, lists, l, i + 2);
      && x < |next| && p < |next| && n < |prev|
      && Sound(cells, lists[l := Without(lists[l], i)], next[p := n][x := x], prev[n := p][x := x], where - {x})
  {
    var after := lists[l := Without(lists[l], i)];
    assert Joined(cells, lists, next, prev, l, i);
    assert Joined(cells, lists, next, prev, l, i + 1);
    WithoutMembers(cells, lists, where, l, i);
    var x, p, n := lists[l][i], At(cells, lists, l, i), At(cells, lists, l, i + 2);
    var next', prev' := next[p := n][x := x], prev[n := p][x := x];
    forall m, j | 0 <= m < |lists| && 0 <= j <= |after[m]|
      ensures Joined(cells, after, next', prev', m, j)
    {
      assert Joined(cells, lists, next, prev, m, if m == l && j > i then j + 1 else j);
      UnlinkedAt(cells, lists, next, prev, where, l, i, m, j);
    }
  }

  lemma UnlinkedAt(cells: nat, lists: seq<seq<nat>>, next: seq<nat>, prev: seq<nat>, where: map<nat, nat>,
                                      l: nat, i: nat, m: nat, j: nat)
    requires Distinct(lists) && Located(cells, lists, where)
    requires l < |lists| && i < |lists[l]|
    requires Joined(cells, lists, next, prev, l, i) && Joined(cells, lists, next, prev, l, i + 1)
    requires lists[l][i] < |next| && lists[l][i] < |prev|
    requires m < |lists| && j <= |lists[l := Without(lists[l], i)][m]|
    requires Joined(cells, lists, next, prev, m, if m == l && j > i then j + 1 else j)
    ensures var x, p, n := lists[l][i], At(cells, lists, l, i), At(cells, lists, l, i + 2);
      Joined(cells, lists[l := Without(lists[l], i)], next[p := n][x := x], prev[n := p][x := x], m, j)
  {
    var k := if m == l && j > i then j + 1 else j;
    var k' := if m == l && j >= i then j + 2 else j + 1;
    UnlinkedPlace(cells, lists, l, i, m, j);
    UnlinkedPlace(cells, lists, l, i, m, j + 1);
    AtDistinct(cells, lists, where, l, i + 1, m, k);
    AtDistinct(cells, lists, where, l, i + 1, m, k');
    AtDistinct(cells, lists, where, l, i, m, k);
    AtDistinct(cells, lists, where, l, i + 2, m, k');
    assert At(cells, lists, l, i + 1) == lists[l][i];
  }

  /** Where the links of the shortened ring were before. */
  lemma UnlinkedPlace(cells: nat, lists: seq<seq<nat>>, l: nat, i: nat, m: nat, j: nat)
    requires l < |lists| && i < |lists[l]|
    requires m < |lists| && j <= |lists[l := Without(lists[l], i)][m]| + 1
    ensures At(cells, lists[l := Without(lists[l], i)], m, j) ==
      At(cells, lists, m, if m == l && j > i then j + 1 else j)
  {
  }

  lemma WithoutMembers(cells: nat, lists: seq<seq<nat>>, where: map<nat, nat>, l: nat, i: nat)
    requires Distinct(lists) && Located(cells, lists, where)
    requires l < |lists| && i < |lists[l]|
    ensures var after := lists[l := Without(lists[l], i)];
      Distinct(after) && Located(cells, after, where - {lists[l][i]})
  {
    var s := lists[l];
    var after := lists[l := Without(s, i)];
    var where' := where - {s[i]};
    forall c | c in where'
      ensures HeldBy(after, where', c)
    {
      assert HeldBy(lists, where, c);
      if where[c] == l {
        var j :| 0 <= j < |s| && s[j] == c;
        assert after[l][if j < i then j else j - 1] == c;
      }
    }
    forall m, j | 0 <= m < |after| && 0 <= j < |after[m]|
      ensures Known(cells, after, where', m, j)
    {
      var k := if m == l && j >= i then j + 1 else j;
      assert lists[m][k] == after[m][j];
      assert Known(cells, lists, where, m, k) && Known(cells, lists, where, l, i);
      assert m == l ==> (SameAt(lists, l, k, i) <==> s[k] == s[i]);
    }
    forall m: nat, j: nat, k: nat | SameAt(after, m, j, k)
      ensures j == k
    {
      assert SameAt(lists, m, if m == l && j >= i then j + 1 else j, if m == l && k >= i then k + 1 else k);
    }
  }

  /** Resetting the links of an unlisted cell, or leaving them as they are, makes no difference. */
  lemma Popped(cells: nat, lists: seq<seq<nat>>, next: seq<nat>, prev: seq<nat>, x: nat, where: map<nat, nat>)
    requires |next| == |prev| == cells + |lists| && x < cells && x !in where
    requires Sound(cells, lists, next[x := x], prev[x := x], where)
    ensures Sound(cells, lists, next, prev, where)
  {
    forall m, j | 0 <= m < |lists| && 0 <= j <= |lists[m]|
      ensures Joined(cells, lists, next, prev, m, j)
    {
      assert Joined(cells, lists, next[x := x], prev[x := x], m, j);
      if j > 0 {
        assert Known(cells, lists, where, m, j - 1);
      }
      if j < |lists[m]| {
        assert Known(cells, lists, where, m, j);
      }
    }
  }

  // Linking

  lemma Pushed(cells: nat, lists: seq<seq<nat>>, next: seq<nat>, prev: seq<nat>, where: map<nat, nat>,
                                  l: nat, x: nat)
    requires Sound(cells, lists, next, prev, where)
    requires l < |lists| && x < cells && x !in where
    ensures var head, last := cells + l, At(cells, lists, l, |lists[l]|);
      && last < |next|
      && Sound(cells, lists[l := lists[l] + [x]], next[x := head][last := x], prev[x := last][head := x], where[x := l])
  {
    var n := |lists[l]|;
    var after := lists[l := lists[l] + [x]];
    assert Joined(cells, lists, next, prev, l, n);
    PushedMembers(cells, lists, where, l, x);
    var head, last := cells + l, At(cells, lists, l, n);
    var next', prev' := next[x := head][last := x], prev[x := last][head := x];
    forall m, j | 0 <= m < |lists| && 0 <= j <= |after[m]|
      ensures Joined(cells, after, next', prev', m, j)
    {
      if !(m == l && j >= n) {
        assert Joined(cells, lists, next, prev, m, j);
      }
      PushedAt(cells, lists, next, prev, where, l, x, m, j);
    }
  }

  lemma PushedAt(cells: nat, lists: seq<seq<nat>>, next: seq<nat>, prev: seq<nat>, where: map<nat, nat>,
                                    l: nat, x: nat, m: nat, j: nat)
    requires |next| == |prev| == cells + |lists| && Distinct(lists) && Located(cells, lists, where)
    requires l < |lists| && x < cells && x !in where
    requires Joined(cells, lists, next, prev, l, |lists[l]|)
    requires m < |lists| && j <= |lists[l := lists[l] + [x]][m]|
    requires !(m == l && j >= |lists[l]|) ==> Joined(cells, lists, next, prev, m, j)
    ensures var head, last := cells + l, At(cells, lists, l, |lists[l]|);
      Joined(cells, lists[l := lists[l] + [x]], next[x := head][last := x], prev[x := last][head := x], m, j)
  {
    var n := |lists[l]|;
    PushedPlace(cells, lists, l, x, m, j);
    PushedPlace(cells, lists, l, x, m, j + 1);
    if !(m == l && j >= n) {
      AtDistinct(cells, lists, where, m, j, l, n);
      AtDistinct(cells, lists, where, m, j + 1, l, n + 1);
      NotListed(cells, lists, where, x, m, j);
      NotListed(cells, lists, where, x, m, j + 1);
    } else {
      NotListed(cells, lists, where, x, l, n);
    }
  }

  lemma NotListed(cells: nat, lists: seq<seq<nat>>, where: map<nat, nat>, x: nat, m: nat, j: nat)
    requires Located(cells, lists, where) && x < cells && x !in where
    requires m < |lists| && j <= |lists[m]| + 1
    ensures At(cells, lists, m, j) != x
  {
    if 0 < j <= |lists[m]| {
      assert Known(cells, lists, where, m, j - 1);
    }
  }

  lemma PushedPlace(cells: nat, lists: seq<seq<nat>>, l: nat, x: nat, m: nat, j: nat)
    requires l < |lists|
    requires m < |lists| && j <= |lists[l := lists[l] + [x]][m]| + 1
    ensures At(cells, lists[l := lists[l] + [x]], m, j) ==
      if m != l || j <= |lists[l]| then At(cells, lists, m, j) else if j == |lists[l]| + 1 then x else cells + l
  {
  }

  lemma PushedMembers(cells: nat, lists: seq<seq<nat>>, where: map<nat, nat>, l: nat, x: nat)
    requires Distinct(lists) && Located(cells, lists, where)
    requires l < |lists| && x !in where && x < cells
    ensures Distinct(lists[l := lists[l] + [x]]) && Located(cells, lists[l := lists[l] + [x]], where[x := l])
  {
    var after := lists[l := lists[l] + [x]];
    var where' := where[x := l];
    assert after[l][|lists[l]|] == x;
    forall c | c in where'
      ensures HeldBy(after, where', c)
    {
      if c != x {
        assert HeldBy(lists, where, c);
        if where[c] == l {
          var i :| 0 <= i < |lists[l]| && lists[l][i] == c;
          assert after[l][i] == c;
        }
      }
    }
    forall m, j | 0 <= m < |after| && 0 <= j < |after[m]|
      ensures Known(cells, after, where', m, j)
    {
      if j < |lists[m]| {
        assert Known(cells, lists, where, m, j);
      }
    }
    forall m: nat, i: nat, j: nat | SameAt(after, m, i, j)
      ensures i == j
    {
      if i < |lists[m]| {
        assert Known(cells, lists, where, m, i);
      }
      if j < |lists[m]| {
        assert Known(cells, lists, where, m, j);
      }
      if i < |lists[m]| && j < |lists[m]| {
        assert SameAt(lists, m, i, j);
      }
    }
  }

  class Links {
    const cells: nat
    const levels: nat
    var next: seq<nat>
    var prev: seq<nat>
    ghost var lists: seq<seq<nat>>
    ghost var where: map<nat, nat>

    ghost predicate Valid()
      reads this
    {
      |lists| == levels && Sound(cells, lists, next, prev, where)
    }

    /** Every sentinel points to itself. */
    constructor (cells: nat, levels: nat)
      ensures Valid()
      ensures this.cells == cells && this.levels == levels
      ensures where == map[]
      ensures forall l :: 0 <= l < levels ==> lists[l] == []
    {
      this.cells := cells;
      this.levels := levels;
      next := seq(cells + levels, i requires 0 <= i => i);
      prev := seq(cells + levels, i requires 0 <= i => i);
      lists := seq(levels, _ => []);
      where := map[];
    }

    method IsEmpty(l: nat) returns (empty: bool)
      requires Valid() && l < levels
      ensures empty <==> lists[l] == []
    {
      assert Joined(cells, lists, next, prev, l, 0);
      if lists[l] != [] {
        assert Known(cells, lists, where, l, 0);
      }
      empty := next[cells + l] == cells + l;
    }

    lemma Listed(l: nat, i: nat)
      requires Valid() && l < levels && i < |lists[l]|
      ensures lists[l][i] in where && where[lists[l][i]] == l && lists[l][i] < cells
    {
      assert Known(cells, lists, where, l, i);
    }

    /** If the lists up to level `l` are empty, every listed cell is listed below it. */
    lemma NoneListed(l: nat)
      requires Valid() && l < levels && forall m :: 0 <= m <= l ==> lists[m] == []
      ensures forall c :: c in where ==> where[c] > l
    {
      forall c | c in where
        ensures where[c] > l
      {
        assert HeldBy(lists, where, c);
      }
    }

    lemma NoneInList(l: nat)
      requires Valid() && l < levels && lists[l] == []
      ensures forall c :: c in where ==> where[c] != l
    {
      forall c | c in where
        ensures where[c] != l
      {
        assert HeldBy(lists, where, c);
      }
    }

    /** Unlinks cell `x` from whatever list holds it; the code never learns which one. */
    method Remove(x: nat)
      requires Valid() && x in where
      modifies this
      ensures Valid()
      ensures where == old(where) - {x}
      ensures old(where)[x] < |old(lists)|
      ensures var s := old(lists)[old(where)[x]];
        exists i :: 0 <= i < |s| && s[i] == x && lists == old(lists)[old(where)[x] := Without(s, i)]
    {
      assert HeldBy(lists, where, x);
      ghost var l := where[x];
      ghost var i :| 0 <= i < |lists[l]| && lists[l][i] == x;
      Unlinked(cells, lists, next, prev, where, l, i);
      assert Joined(cells, lists, next, prev, l, i);
      assert Joined(cells, lists, next, prev, l, i + 1);
      var n := next[x];
      var p := prev[x];
      next := next[p := n];
      prev := prev[n := p];
      prev := prev[x := x];
      next := next[x := x];
      lists := lists[l := Without(lists[l], i)];
      where := where - {x};
    }

    method PushBack(l: nat, x: nat)
      requires Valid()
      requires l < levels && x < cells && x !in where
      modifies this
      ensures Valid()
      ensures lists == old(lists)[l := old(lists)[l] + [x]]
      ensures where == old(where)[x := l]
    {
      var head := cells + l;
      assert Joined(cells, lists, next, prev, l, |lists[l]|);
      Pushed(cells, lists, next, prev, where, l, x);
      var last := prev[head];
      prev := prev[x := last];
      next := next[x := head];
      next := next[last := x];
      prev := prev[head := x];
      lists := lists[l := lists[l] + [x]];
      where := where[x := l];
    }

    method PopFirst(l: nat) returns (x: nat)
      requires Valid()
      requires l < levels && lists[l] != []
      modifies this
      ensures Valid()
      ensures x == old(lists)[l][0]
      ensures lists == old(lists)[l := old(lists)[l][1..]]
      ensures x in old(where) && old(where)[x] == l && where == old(where) - {x} && x < cells
    {
      var head := cells + l;
      assert Joined(cells, lists, next, prev, l, 0);
      x := next[head];
      assert Joined(cells, lists, next, prev, l, 1);
      Listed(l, 0);
      Unlinked(cells, lists, next, prev, where, l, 0);
      var second := next[x];
      prev := prev[second := head];
      next := next[head := second];
      assert Without(lists[l], 0) == lists[l][1..];
      Popped(cells, lists[l := lists[l][1..]], next, prev, x, where - {x});
      lists := lists[l := lists[l][1..]];
      where := where - {x};
    }
  }

  /** Pops the first block of list `l` and lists its two halves in list `l + 1`. */
  method PushHalves(links: Links, l: nat, half: nat) returns (x: nat)
    requires links.Valid() && l + 1 < links.levels && links.lists[l] != [] && half > 0
    requires var y := links.lists[l][0] + half; y < links.cells && y !in links.where
    modifies links
    ensures links.Valid()
    ensures x == old(links.lists)[l][0]
    ensures links.where == (old(links.where) - {x})[x := l + 1][x + half := l + 1]
    ensures links.lists ==
      old(links.lists)[l := old(links.lists)[l][1..]][l + 1 := old(links.lists)[l + 1] + [x, x + half]]
  {
    x := links.PopFirst(l);
    links.PushBack(l + 1, x);
    links.PushBack(l + 1, x + half);
    assert old(links.lists)[l + 1] + [x] + [x + half] == old(links.lists)[l + 1] + [x, x + half];
  }
}
