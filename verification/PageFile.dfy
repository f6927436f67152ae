/** Who owns which page of the file: the root page, the pages in use and the list of freed
    pages, and the doubly linked chains that tree pages form. */
module PageFile {

  datatype Link = Null | To(pg: nat)

  /** A page of the file other than the root: freed, or in use with its neighbours. */
  datatype PageRec = Tombstone(nextFree: nat) | InUse(kind: nat, prev: Link, next: Link)

  type Pages = map<nat, PageRec>

  // ---------------------------------------------------------------- the list of freed pages

  predicate Distinct(s: seq<nat>) {
    forall i, j :: 0 <= i < j < |s| ==> s[i] != s[j]
  }

  /** What page free[i] of the list links to: the last one links to npages, the page the file
      would grow by. */
  function NextFree(free: seq<nat>, i: nat, npages: nat): nat
    requires i < |free|
  {
    if i + 1 < |free| then free[i + 1] else npages
  }

  /** The freed pages, as the root page leads to them, are exactly those of the list. */
  ghost predicate FreeList(pages: Pages, first: nat, free: seq<nat>, npages: nat) {
    && first == (if free == [] then npages else free[0])
    && Distinct(free)
    && (forall i :: 0 <= i < |free| ==> free[i] in pages && pages[free[i]] == Tombstone(NextFree(free, i, npages)))
    && (forall p :: p in pages && pages[p].Tombstone? ==> p in free)
  }

  lemma Popped(pages: Pages, first: nat, free: seq<nat>, npages: nat, rec: PageRec)
    requires FreeList(pages, first, free, npages) && free != [] && rec.InUse?
    ensures FreeList(pages[free[0] := rec], NextFree(free, 0, npages), free[1..], npages)
  {
    var pages', free' := pages[free[0] := rec], free[1..];
    forall i | 0 <= i < |free'|
      ensures free'[i] in pages' && pages'[free'[i]] == Tombstone(NextFree(free', i, npages))
    {
      assert free'[i] == free[i + 1] != free[0];
    }
    forall p | p in pages' && pages'[p].Tombstone?
      ensures p in free'
    {
      var i :| 0 <= i < |free| && free[i] == p;
      assert free'[i - 1] == p;
    }
  }

  lemma Pushed(pages: Pages, first: nat, free: seq<nat>, npages: nat, pg: nat)
    requires FreeList(pages, first, free, npages) && pg in pages && pages[pg].InUse?
    ensures FreeList(pages[pg := Tombstone(first)], pg, [pg] + free, npages)
  {
    var pages', free' := pages[pg := Tombstone(first)], [pg] + free;
    forall i | 0 <= i < |free'|
      ensures free'[i] in pages' && pages'[free'[i]] == Tombstone(NextFree(free', i, npages))
    {
      if i > 0 {
        assert free'[i] == free[i - 1] && pages[free[i - 1]].Tombstone?;
        assert NextFree(free', i, npages) == NextFree(free, i - 1, npages);
      }
    }
    assert Distinct(free') by {
      assert forall i :: 0 <= i < |free| ==> pages[free[i]].Tombstone?;
    }
    forall p | p in pages' && pages'[p].Tombstone?
      ensures p in free'
    {
      assert p == pg == free'[0] || p in free;
    }
  }

  /** Changing pages in use leaves the list as it was. */
  lemma Relinked(pages: Pages, pages': Pages, first: nat, free: seq<nat>, npages: nat)
    requires FreeList(pages, first, free, npages)
    requires pages'.Keys == pages.Keys
    requires forall p :: p in pages ==> pages'[p] == pages[p] || (pages[p].InUse? && pages'[p].InUse?)
    ensures FreeList(pages', first, free, npages)
  {
  }

  // ---------------------------------------------------------------- chains

  function PrevIn(c: seq<nat>, i: nat): Link
    requires i < |c|
  {
    if i == 0 then Null else To(c[i - 1])
  }

  function NextIn(c: seq<nat>, i: nat): Link
    requires i < |c|
  {
    if i + 1 == |c| then Null else To(c[i + 1])
  }

  /** Page c[i] is in use and linked to its neighbours in c, and to nothing else. */
  predicate LinkedIn(pages: Pages, c: seq<nat>, i: nat)
    requires i < |c|
  {
    && c[i] in pages
    && pages[c[i]].InUse? && pages[c[i]].prev == PrevIn(c, i) && pages[c[i]].next == NextIn(c, i)
  }

  ghost predicate Chain(pages: Pages, c: seq<nat>) {
    && Distinct(c)
    && forall i :: 0 <= i < |c| ==> LinkedIn(pages, c, i)
  }

  /** From one state of the file to another, chain c became c': the pages it gained were free or
      beyond the end, those it lost are freed, and no other page changed. */
  ghost predicate Changed(was: Pages, now: Pages, c: seq<nat>, c': seq<nat>) {
    && Chain(now, c')
    && (forall p :: p in c' ==> p in c || p !in was || was[p].Tombstone?)
    && (forall p :: p in now ==> p in was || p in c')
    && (forall p :: p in c && p !in c' ==> p in now && now[p].Tombstone?)
    && (forall p :: p in was && p !in c && p !in c' ==> p in now && now[p] == was[p])
  }

  /** The pages in use are shared out over the chains: each belongs to exactly one. */
  ghost predicate Owned(pages: Pages, chains: seq<seq<nat>>) {
    && (forall x :: 0 <= x < |chains| ==> Chain(pages, chains[x]))
    && (forall x, y, p :: 0 <= x < y < |chains| && p in chains[x] ==> p !in chains[y])
    && (forall p :: p in pages && pages[p].InUse? ==> exists x :: 0 <= x < |chains| && p in chains[x])
  }

  /** Whatever happens to one chain leaves every other chain whole, and the pages shared out. */
  lemma OwnershipKept(was: Pages, now: Pages, chains: seq<seq<nat>>, x: nat, c': seq<nat>)
    requires Owned(was, chains) && x < |chains| && Changed(was, now, chains[x], c')
    ensures Owned(now, chains[x := c'])
  {
    hide Chain;
    var chains' := chains[x := c'];
    forall y, p | 0 <= y < |chains| && y != x && p in chains[y]
      ensures p in was && p in now && was[p] == now[p] && p !in c'
    {
      InUseIn(was, chains[y], p);
    }
    forall y | 0 <= y < |chains'|
      ensures Chain(now, chains'[y])
    {
      if y != x {
        ChainFrame(was, now, chains[y]);
      }
    }
    forall p | p in now && now[p].InUse?
      ensures exists y :: 0 <= y < |chains'| && p in chains'[y]
    {
      if p !in c' {
        assert was[p] == now[p];
        var y :| 0 <= y < |chains| && p in chains[y];
        assert chains'[y] == chains[y];
      } else {
        assert p in chains'[x];
      }
    }
  }

  /** A page allocated by itself starts a chain of its own. */
  lemma ChainStarted(was: Pages, chains: seq<seq<nat>>, pg: nat, rec: PageRec)
    requires Owned(was, chains) && (pg !in was || was[pg].Tombstone?)
    requires rec.InUse? && rec.prev == rec.next == Null
    ensures Owned(was[pg := rec], chains + [[pg]])
  {
    var more := chains + [[]];
    assert Owned(was, more) by {
      forall p | p in was && was[p].InUse?
        ensures exists y :: 0 <= y < |more| && p in more[y]
      {
        var y :| 0 <= y < |chains| && p in chains[y];
        assert more[y] == chains[y];
      }
    }
    OwnershipKept(was, was[pg := rec], more, |chains|, [pg]);
    assert more[|chains| := [pg]] == chains + [[pg]];
  }

  lemma InUseIn(pages: Pages, c: seq<nat>, p: nat)
    requires Chain(pages, c) && p in c
    ensures p in pages && pages[p].InUse?
  {
    var i :| 0 <= i < |c| && c[i] == p;
    assert LinkedIn(pages, c, i);
  }

  /** A chain is not disturbed by changes to other pages. */
  lemma ChainFrame(pages: Pages, pages': Pages, c: seq<nat>)
    requires Chain(pages, c) && forall p :: p in c && p in pages ==> p in pages' && pages'[p] == pages[p]
    ensures Chain(pages', c)
  {
    forall i | 0 <= i < |c|
      ensures LinkedIn(pages', c, i)
    {
      assert LinkedIn(pages, c, i) && c[i] in c;
    }
  }

  /** The two pages made neighbours, either side possibly missing. */
  function Linked(pages: Pages, left: Link, right: Link): Pages
    requires left.To? ==> left.pg in pages && pages[left.pg].InUse?
    requires right.To? ==> right.pg in pages && pages[right.pg].InUse?
  {
    var p := if left.To? then pages[left.pg := pages[left.pg].(next := right)] else pages;
    if right.To? then p[right.pg := p[right.pg].(prev := left)] else p
  }

  lemma DistinctInserted(c: seq<nat>, k: nat, dest: nat)
    requires Distinct(c) && k <= |c| && dest !in c
    ensures var d := c[..k] + [dest] + c[k..]; Distinct(d) && forall p :: p in d <==> p in c || p == dest
  {
    var d := c[..k] + [dest] + c[k..];
    assert forall m :: 0 <= m < |d| ==> d[m] == if m < k then c[m] else if m == k then dest else c[m - 1];
    assert c == c[..k] + c[k..];
  }

  lemma DistinctDropped(c: seq<nat>, k: nat)
    requires Distinct(c) && k < |c|
    ensures var d := c[..k] + c[k + 1..]; Distinct(d) && forall p :: p in d <==> p in c && p != c[k]
  {
    var d := c[..k] + c[k + 1..];
    assert forall m :: 0 <= m < |d| ==> d[m] == if m < k then c[m] else c[m + 1];
    assert c == c[..k] + [c[k]] + c[k + 1..];
  }

  /** A new page between its two neighbours lengthens the chain by exactly itself. */
  lemma Inserted(pages: Pages, c: seq<nat>, k: nat, dest: nat, rec: PageRec)
    requires Chain(pages, c) && k <= |c| && |c| > 0 && rec.InUse?
    requires dest !in pages || pages[dest].Tombstone?
    requires rec.prev == rec.next == Null
    ensures k > 0 ==> LinkedIn(pages, c, k - 1)
    ensures k < |c| ==> LinkedIn(pages, c, k)
    ensures var (left, right) := (if k > 0 then To(c[k - 1]) else Null, if k < |c| then To(c[k]) else Null);
            && Changed(pages, Linked(Linked(pages[dest := rec], left, To(dest)), To(dest), right), c, c[..k] + [dest] + c[k..])
  {
    var left, right := if k > 0 then To(c[k - 1]) else Null, if k < |c| then To(c[k]) else Null;
    Unused(pages, c, dest);
    assert k > 0 ==> LinkedIn(pages, c, k - 1);
    assert k < |c| ==> LinkedIn(pages, c, k);
    var one := Linked(pages[dest := rec], left, To(dest));
    var now := Linked(one, To(dest), right);
    var d := c[..k] + [dest] + c[k..];
    DistinctInserted(c, k, dest);
    forall m | 0 <= m < |d|
      ensures LinkedIn(now, d, m)
    {
      if m != k {
        assert LinkedIn(pages, c, if m < k then m else m - 1);
      }
    }
  }

  /** A page taken from between its neighbours shortens the chain by exactly itself. */
  lemma Dropped(pages: Pages, c: seq<nat>, k: nat, rec: PageRec)
    requires Chain(pages, c) && k < |c| && rec.Tombstone?
    ensures k > 0 ==> LinkedIn(pages, c, k - 1) && c[k - 1] != c[k]
    ensures k + 1 < |c| ==> LinkedIn(pages, c, k + 1) && c[k + 1] != c[k]
    ensures Changed(pages, Linked(pages[c[k] := rec], PrevIn(c, k), NextIn(c, k)), c, c[..k] + c[k + 1..])
  {
    assert LinkedIn(pages, c, k);
    assert k > 0 ==> LinkedIn(pages, c, k - 1);
    assert k + 1 < |c| ==> LinkedIn(pages, c, k + 1);
    var now := Linked(pages[c[k] := rec], PrevIn(c, k), NextIn(c, k));
    var d := c[..k] + c[k + 1..];
    DistinctDropped(c, k);
    forall m | 0 <= m < |d|
      ensures LinkedIn(now, d, m)
    {
      assert LinkedIn(pages, c, if m < k then m else m + 1);
    }
  }

  // ---------------------------------------------------------------- freeing a whole chain

  function Reversed(s: seq<nat>): seq<nat> {
    if s == [] then [] else Reversed(s[1..]) + [s[0]]
  }

  lemma {:induction false} ReversedMore(s: seq<nat>, p: nat)
    ensures Reversed(s + [p]) == [p] + Reversed(s)
  {
    if s == [] {
      assert [p][1..] == [];
    } else {
      assert (s + [p])[1..] == s[1..] + [p];
      ReversedMore(s[1..], p);
    }
  }

  lemma {:induction false} ReversedContents(s: seq<nat>)
    ensures multiset(Reversed(s)) == multiset(s)
  {
    if s != [] {
      ReversedContents(s[1..]);
      assert s == [s[0]] + s[1..];
    }
  }

  /** The pages of c from j up to k are freed, the others as they were. */
  ghost predicate Deleting(was: Pages, now: Pages, c: seq<nat>, j: nat, k: nat) {
    && Chain(was, c) && j <= k <= |c|
    && now.Keys == was.Keys
    && (forall m :: 0 <= m < |c| ==> c[m] in now)
    && (forall m :: j <= m < k ==> now[c[m]].Tombstone?)
    && (forall m :: 0 <= m < j || k <= m < |c| ==> now[c[m]] == was[c[m]])
    && (forall p :: p in was && p !in c ==> now[p] == was[p])
  }

  lemma DeletingStarts(was: Pages, c: seq<nat>, i: nat)
    requires Chain(was, c) && i <= |c|
    ensures Deleting(was, was, c, i, i)
  {
    forall m | 0 <= m < |c|
      ensures c[m] in was
    {
      assert LinkedIn(was, c, m);
    }
  }

  lemma DeletingOne(was: Pages, now: Pages, c: seq<nat>, j: nat, k: nat, m: nat, rec: PageRec)
    requires Deleting(was, now, c, j, k) && m < |c| && rec.Tombstone?
    requires m == k || m + 1 == j
    ensures c[m] in now && LinkedIn(was, c, m) && now[c[m]] == was[c[m]]
    ensures if m == k then Deleting(was, now[c[m] := rec], c, j, k + 1) else Deleting(was, now[c[m] := rec], c, j - 1, k)
  {
    assert LinkedIn(was, c, m) && c[m] in c;
  }

  lemma FreedSoFar(c: seq<nat>, i: nat, k: nat, rest: seq<nat>)
    requires i <= k < |c|
    ensures [c[k]] + (Reversed(c[i..k]) + rest) == Reversed(c[i..k + 1]) + rest
  {
    assert c[i..k + 1] == c[i..k] + [c[k]];
    ReversedMore(c[i..k], c[k]);
  }

  lemma FreedFirst(c: seq<nat>, i: nat, rest: seq<nat>)
    requires i < |c|
    ensures [c[i]] + rest == Reversed(c[i..i + 1]) + rest
  {
    FreedSoFar(c, i, i, rest);
    assert Reversed(c[i..i]) + rest == rest;
  }

  lemma FreedBefore(c: seq<nat>, j: nat, i: nat, rest: seq<nat>)
    requires 0 < j <= i <= |c|
    ensures [c[j - 1]] + (c[j..i] + rest) == c[j - 1..i] + rest
  {
    assert c[j - 1..i] == [c[j - 1]] + c[j..i];
  }

  /** Every page of the chain is pushed on the list exactly once. */
  lemma FreedContents(c: seq<nat>, i: nat, free: seq<nat>)
    requires i <= |c|
    ensures multiset(c[..i] + Reversed(c[i..]) + free) == multiset(c) + multiset(free)
  {
    ReversedContents(c[i..]);
    assert c == c[..i] + c[i..];
  }

  class File {
    var first: nat
    var npages: nat
    var pages: Pages
    ghost var free: seq<nat>

    /** Every page below npages but the root is in use or freed, and the freed ones are exactly
        the list. */
    ghost predicate Valid()
      reads this
    {
      && npages >= 1
      && (forall p :: p in pages <==> 1 <= p < npages)
      && FreeList(pages, first, free, npages)
    }

    /** A new file holds the root page alone. */
    constructor ()
      ensures Valid() && npages == 1 && free == [] && pages == map[]
    {
      first, npages, pages, free := 1, 1, map[], [];
    }

    /** Allocates a page: the page freed last if there is one, a new one at the end of the file
        otherwise. */
    method New(kind: nat) returns (pg: nat)
      requires Valid()
      modifies this
      ensures Valid()
      ensures pages == old(pages)[pg := InUse(kind, Null, Null)]
      ensures if old(free) != [] then pg == old(free)[0] && free == old(free)[1..] && npages == old(npages)
              else pg == old(npages) && free == [] && npages == old(npages) + 1
      ensures pg in old(pages) ==> old(pages)[pg].Tombstone?
    {
      var next: nat;
      assert free != [] ==> first in pages;
      if first < npages {
        Popped(pages, first, free, npages, InUse(kind, Null, Null));
        assert pages[free[0]] == Tombstone(NextFree(free, 0, npages));
        pg := first;
        next := pages[pg].nextFree;
        free := free[1..];
      } else {
        pg := npages;
        npages := npages + 1;
        next := npages;
      }
      first := next;
      pages := pages[pg := InUse(kind, Null, Null)];
    }

    /** Frees a page in use. */
    method Delete(pg: nat)
      requires Valid() && pg in pages && pages[pg].InUse?
      modifies `pages, `first, `free
      ensures Valid() && free == [pg] + old(free) && first == pg
      ensures pages == old(pages)[pg := Tombstone(old(first))]
    {
      hide FreeList;
      Pushed(pages, first, free, npages, pg);
      pages := pages[pg := Tombstone(first)];
      first := pg;
      free := [pg] + free;
    }

    /** Makes two pages neighbours; either side may be missing. */
    method LinkUp(left: Link, right: Link)
      requires Valid()
      requires left.To? ==> left.pg in pages && pages[left.pg].InUse?
      requires right.To? ==> right.pg in pages && pages[right.pg].InUse?
      modifies `pages
      ensures Valid()
      ensures pages == Linked(old(pages), left, right)
    {
      hide FreeList;
      Relinked(pages, Linked(pages, left, right), first, free, npages);
      if left.To? {
        pages := pages[left.pg := pages[left.pg].(next := right)];
      }
      if right.To? {
        pages := pages[right.pg := pages[right.pg].(prev := left)];
      }
    }

    /** Puts a new page right after cur. */
    method NewNext(cur: nat, cnext: Link, ghost c: seq<nat>, ghost i: nat) returns (dest: nat)
      requires Valid() && Chain(pages, c) && i < |c| && c[i] == cur && cur in pages
      requires pages[cur].InUse? && cnext == pages[cur].next
      modifies this
      ensures Valid() && Changed(old(pages), pages, c, c[..i + 1] + [dest] + c[i + 1..])
      ensures dest in pages && pages[dest].InUse? && pages[dest].kind == old(pages)[cur].kind
      ensures dest !in old(pages) || old(pages)[dest].Tombstone?
    {
      hide FreeList, Changed, Chain, Distinct;
      dest := New(pages[cur].kind);
      Neighbours(old(pages), c, i);
      Inserted(old(pages), c, i + 1, dest, pages[dest]);
      hide Valid;
      LinkUp(To(cur), To(dest));
      LinkUp(To(dest), cnext);
    }

    /** Puts a new page right before cur. */
    method NewPrev(cprev: Link, cur: nat, ghost c: seq<nat>, ghost i: nat) returns (dest: nat)
      requires Valid() && Chain(pages, c) && i < |c| && c[i] == cur && cur in pages
      requires pages[cur].InUse? && cprev == pages[cur].prev
      modifies this
      ensures Valid() && Changed(old(pages), pages, c, c[..i] + [dest] + c[i..])
      ensures dest in pages && pages[dest].InUse? && pages[dest].kind == old(pages)[cur].kind
      ensures dest !in old(pages) || old(pages)[dest].Tombstone?
    {
      hide FreeList, Changed, Chain, Distinct;
      dest := New(pages[cur].kind);
      Neighbours(old(pages), c, i);
      Inserted(old(pages), c, i, dest, pages[dest]);
      hide Valid;
      LinkUp(cprev, To(dest));
      LinkUp(To(dest), To(cur));
    }

    /** Frees the page after cur and closes the gap; answers the new next page. */
    method DeleteAndFillNext(cur: nat, next: nat, ghost c: seq<nat>, ghost i: nat) returns (next': Link)
      requires Valid() && Chain(pages, c) && i + 1 < |c| && c[i] == cur && c[i + 1] == next
      modifies this
      ensures Valid() && Changed(old(pages), pages, c, c[..i + 1] + c[i + 2..])
      ensures free == [next] + old(free) && npages == old(npages)
      ensures next' == if i + 2 < |c| then To(c[i + 2]) else Null
    {
      hide FreeList, Changed, Chain, Valid, Distinct;
      Neighbours(pages, c, i + 1);
      Dropped(pages, c, i + 1, Tombstone(first));
      next' := pages[next].next;
      Delete(next);
      LinkUp(To(cur), next');
    }

    /** Frees the page before cur and closes the gap; answers the new previous page. */
    method DeleteAndFillPrev(prev: nat, cur: nat, ghost c: seq<nat>, ghost i: nat) returns (prev': Link)
      requires Valid() && Chain(pages, c) && i + 1 < |c| && c[i] == prev && c[i + 1] == cur
      modifies this
      ensures Valid() && Changed(old(pages), pages, c, c[..i] + c[i + 1..])
      ensures free == [prev] + old(free) && npages == old(npages)
      ensures prev' == if i > 0 then To(c[i - 1]) else Null
    {
      hide FreeList, Changed, Chain, Valid, Distinct;
      Neighbours(pages, c, i);
      Dropped(pages, c, i, Tombstone(first));
      prev' := pages[prev].prev;
      Delete(prev);
      LinkUp(prev', To(cur));
    }

    /** Frees the whole chain that cur is part of: cur, then what follows it, then what comes
        before it, going outwards. */
    method DeleteChain(cur: nat, ghost c: seq<nat>, ghost i: nat)
      requires Valid() && Chain(pages, c) && i < |c| && c[i] == cur
      modifies this
      ensures Valid() && npages == old(npages)
      ensures free == c[..i] + Reversed(c[i..]) + old(free)
      ensures multiset(free) == multiset(c) + multiset(old(free))
      ensures Changed(old(pages), pages, c, [])
    {
      hide FreeList, Changed, Chain, Valid, Deleting, Reversed, Distinct;
      DeletingStarts(pages, c, i);
      DeletingOne(old(pages), pages, c, i, i, i, Tombstone(first));
      FreedFirst(c, i, free);
      var next, prev := pages[cur].next, pages[cur].prev;
      ghost var k: nat, j: nat := i + 1, i;
      Delete(cur);
      while next.To?
        invariant i < k <= |c| && Deleting(old(pages), pages, c, i, k)
        invariant Valid() && npages == old(npages)
        invariant next == if k == |c| then Null else To(c[k])
        invariant free == Reversed(c[i..k]) + old(free)
        decreases |c| - k
      {
        DeletingOne(old(pages), pages, c, i, k, k, Tombstone(first));
        FreedSoFar(c, i, k, old(free));
        var nextNext := pages[next.pg].next;
        Delete(next.pg);
        next := nextNext;
        k := k + 1;
      }
      assert c[i..|c|] == c[i..];
      ghost var after := free;
      assert free == c[i..i] + after;
      while prev.To?
        invariant j <= i && Deleting(old(pages), pages, c, j, |c|)
        invariant Valid() && npages == old(npages)
        invariant prev == if j == 0 then Null else To(c[j - 1])
        invariant free == c[j..i] + after
        decreases j
      {
        DeletingOne(old(pages), pages, c, j, |c|, j - 1, Tombstone(first));
        var prevPrev := pages[prev.pg].prev;
        Delete(prev.pg);
        FreedBefore(c, j, i, after);
        prev := prevPrev;
        j := j - 1;
      }
      assert c[0..i] == c[..i];
      FreedContents(c, i, old(free));
      AllDeleted(old(pages), pages, c);
    }
  }

  lemma AllDeleted(was: Pages, now: Pages, c: seq<nat>)
    requires Deleting(was, now, c, 0, |c|)
    ensures Changed(was, now, c, [])
  {
  }

  /** A page that is free or beyond the file is in no chain. */
  lemma Unused(pages: Pages, c: seq<nat>, dest: nat)
    requires Chain(pages, c) && (dest !in pages || pages[dest].Tombstone?)
    ensures dest !in c
  {
    forall i | 0 <= i < |c|
      ensures c[i] != dest
    {
      assert LinkedIn(pages, c, i);
    }
  }

  lemma Neighbours(pages: Pages, c: seq<nat>, i: nat)
    requires Chain(pages, c) && i < |c|
    ensures LinkedIn(pages, c, i)
    ensures i > 0 ==> LinkedIn(pages, c, i - 1) && c[i - 1] != c[i]
    ensures i + 1 < |c| ==> LinkedIn(pages, c, i + 1) && c[i + 1] != c[i]
  {
  }
}
