/** The chained hash table, and the adaptive table over two of them that rehashes a few nodes
    at a time. */
module HashTable {

  /** A node carries the hash code it was filed under and the key that eq compares. */
  datatype Node = Node(hcode: nat, key: nat, value: nat)

  datatype Option<T> = None | Some(value: T)

  /** The test of the code: the hash codes first, then eq. */
  predicate Matches(n: Node, hcode: nat, key: nat) {
    n.hcode == hcode && n.key == key
  }

  /** All the nodes of some chains. */
  ghost function Nodes(chains: seq<seq<Node>>): multiset<Node> {
    if chains == [] then multiset{} else multiset(chains[0]) + Nodes(chains[1..])
  }

  lemma {:induction false} NodesIn(chains: seq<seq<Node>>, n: Node)
    ensures n in Nodes(chains) <==> exists i :: 0 <= i < |chains| && n in chains[i]
  {
    if chains != [] {
      NodesIn(chains[1..], n);
      if n in Nodes(chains[1..]) {
        var i :| 0 <= i < |chains[1..]| && n in chains[1..][i];
        assert n in chains[i + 1];
      }
      if i :| 0 <= i < |chains| && n in chains[i] {
        if i > 0 { assert n in chains[1..][i - 1]; }
      }
    }
  }

  /** Replacing one chain. */
  lemma {:induction false} NodesUpdate(chains: seq<seq<Node>>, i: nat, c: seq<Node>)
    requires i < |chains|
    ensures Nodes(chains[i := c]) + multiset(chains[i]) == Nodes(chains) + multiset(c)
  {
    if i == 0 {
      assert chains[i := c][1..] == chains[1..];
    } else {
      NodesUpdate(chains[1..], i - 1, c);
      assert chains[i := c][1..] == chains[1..][i - 1 := c];
      assert chains[i := c][0] == chains[0] && chains[1..][i - 1] == chains[i];
      Regroup(multiset(chains[0]), Nodes(chains[1..][i - 1 := c]), multiset(chains[i]), Nodes(chains[1..]), multiset(c));
    }
  }

  lemma Regroup(h: multiset<Node>, a: multiset<Node>, b: multiset<Node>, c: multiset<Node>, d: multiset<Node>)
    requires a + b == c + d
    ensures (h + a) + b == (h + c) + d
  {
    assert (h + a) + b == h + (a + b);
    assert (h + c) + d == h + (c + d);
  }

  /** Every node is filed under its hash code. */
  ghost predicate Filed(chains: seq<seq<Node>>) {
    forall i, k :: 0 <= i < |chains| && 0 <= k < |chains[i]| ==> chains[i][k].hcode % |chains| == i
  }

  /** Linking a node at the head of its chain. */
  lemma Linked(chains: seq<seq<Node>>, node: Node)
    requires |chains| > 0 && Filed(chains)
    ensures var pos := node.hcode % |chains|;
            var chains' := chains[pos := [node] + chains[pos]];
            && Filed(chains') && Nodes(chains') == Nodes(chains) + multiset{node}
            && |Nodes(chains')| == |Nodes(chains)| + 1
  {
    var pos := node.hcode % |chains|;
    NodesUpdate(chains, pos, [node] + chains[pos]);
    assert multiset([node] + chains[pos]) == multiset{node} + multiset(chains[pos]);
    Cancel(Nodes(chains[pos := [node] + chains[pos]]), multiset(chains[pos]), Nodes(chains), multiset{node});
  }

  lemma Cancel(a: multiset<Node>, b: multiset<Node>, c: multiset<Node>, d: multiset<Node>)
    requires a + b == c + (d + b)
    ensures a == c + d
  {
    assert c + (d + b) == (c + d) + b;
    assert a == (a + b) - b;
    assert c + d == ((c + d) + b) - b;
  }

  lemma FiledWithout(chains: seq<seq<Node>>, pos: nat, k: nat)
    requires Filed(chains) && pos < |chains| && k < |chains[pos]|
    ensures Filed(chains[pos := chains[pos][..k] + chains[pos][k + 1..]])
  {
    var rest := chains[pos][..k] + chains[pos][k + 1..];
    assert forall j :: 0 <= j < |rest| ==> rest[j] == chains[pos][if j < k then j else j + 1];
  }

  /** Unlinking the node at place k of chain pos. */
  lemma Unlinked(chains: seq<seq<Node>>, pos: nat, k: nat)
    requires Filed(chains) && pos < |chains| && k < |chains[pos]|
    ensures var node := chains[pos][k];
            var chains' := chains[pos := chains[pos][..k] + chains[pos][k + 1..]];
            && Filed(chains') && node in Nodes(chains) && Nodes(chains') == Nodes(chains) - multiset{node}
            && |Nodes(chains')| == |Nodes(chains)| - 1
  {
    var chain, node := chains[pos], chains[pos][k];
    var rest := chain[..k] + chain[k + 1..];
    NodesIn(chains, node);
    NodesUpdate(chains, pos, rest);
    FiledWithout(chains, pos, k);
    hide Filed, Nodes;
    assert chain == (chain[..k] + [node]) + chain[k + 1..];
    assert multiset(chain) == multiset{node} + multiset(rest);
    Cancel(Nodes(chains), multiset(rest), Nodes(chains[pos := rest]), multiset{node});
  }

  lemma {:induction false} NoNodes(chains: seq<seq<Node>>)
    ensures (forall i :: 0 <= i < |chains| ==> chains[i] == []) <==> Nodes(chains) == multiset{}
  {
    if chains != [] {
      NoNodes(chains[1..]);
      assert (forall i :: 0 <= i < |chains| ==> chains[i] == []) <==>
             chains[0] == [] && forall i :: 0 <= i < |chains[1..]| ==> chains[1..][i] == [];
      if chains[0] != [] { assert chains[0][0] in multiset(chains[0]); }
    }
  }

  class HTable {
    var table: seq<seq<Node>>
    var size: nat

    /** Every node is filed under its hash code, and size counts the nodes. */
    ghost predicate Valid()
      reads this
    {
      && |table| > 0
      && Filed(table)
      && size == |Contents()|
    }

    ghost function Contents(): multiset<Node>
      reads this
    {
      Nodes(table)
    }

    constructor (n: nat)
      requires n > 0
      ensures Valid() && Contents() == multiset{} && |table| == n && size == 0
      ensures forall i :: 0 <= i < n ==> table[i] == []
    {
      table := seq(n, _ => []);
      size := 0;
      new;
      NoNodes(table);
    }

    /** Files a node at the head of its chain. */
    method Insert(node: Node)
      requires Valid()
      modifies this
      ensures Valid() && Contents() == old(Contents()) + multiset{node} && |table| == old(|table|)
      ensures var pos := node.hcode % |table|; table == old(table)[pos := [node] + old(table)[pos]]
    {
      Linked(table, node);
      hide Filed, Nodes;
      var pos := node.hcode % |table|;
      table := table[pos := [node] + table[pos]];
      size := size + 1;
    }

    /** The place of the first matching node of its chain. */
    method Lookup(hcode: nat, key: nat) returns (from: Option<nat>)
      requires Valid()
      ensures from.Some? ==> var pos := hcode % |table|;
                from.value < |table[pos]| && table[pos][from.value].hcode == hcode && table[pos][from.value].key == key
                && table[pos][from.value] in Contents()
                && forall j :: 0 <= j < from.value ==> !(table[pos][j].hcode == hcode && table[pos][j].key == key)
      ensures from.None? ==> forall n :: n in Contents() ==> !(n.hcode == hcode && n.key == key)
    {
      var pos := hcode % |table|;
      var k := 0;
      while k < |table[pos]|
        invariant k <= |table[pos]|
        invariant forall j :: 0 <= j < k ==> !(table[pos][j].hcode == hcode && table[pos][j].key == key)
      {
        if Matches(table[pos][k], hcode, key) {
          NodesIn(table, table[pos][k]);
          return Some(k);
        }
        k := k + 1;
      }
      forall n | n in Contents()
        ensures !(n.hcode == hcode && n.key == key)
      {
        NodesIn(table, n);
      }
      return None;
    }

    /** Unlinks the node at place k of chain pos. */
    method Delete(pos: nat, k: nat) returns (node: Node)
      requires Valid() && pos < |table| && k < |table[pos]|
      modifies this
      ensures Valid() && node == old(table)[pos][k] && |table| == |old(table)|
      ensures node in old(Contents()) && Contents() == old(Contents()) - multiset{node}
      ensures table == old(table)[pos := old(table)[pos][..k] + old(table)[pos][k + 1..]]
    {
      Unlinked(table, pos, k);
      hide Filed, Nodes;
      var chain := table[pos];
      node := chain[k];
      table := table[pos := chain[..k] + chain[k + 1..]];
      size := size - 1;
    }
  }

  // ---------------------------------------------------------------- the adaptive table

  datatype Settings = Settings(maxLoad: nat, minLoad: nat, work: nat, maxSize: nat, minSize: nat) {
    predicate Valid() {
      0 < minSize <= maxSize && work > 0 && minLoad > 0 && maxLoad > 0
    }
  }

  /** The settings of the transaction table. */
  const TXN_TABLE: Settings := Settings(8, 1, 28, 2048, 10)

  class Adaptive {
    var current: HTable
    var prev: HTable
    var migratePos: nat
    const settings: Settings

    /** The old table holds nothing below the migration position. */
    ghost predicate Valid()
      reads this, current, prev
    {
      && settings.Valid()
      && current != prev && current.Valid() && prev.Valid()
      && migratePos <= |prev.table|
      && forall i :: 0 <= i < migratePos ==> prev.table[i] == []
    }

    /** The one table the two stand for. */
    ghost function Contents(): multiset<Node>
      reads this, current, prev
    {
      current.Contents() + prev.Contents()
    }

    constructor (s: Settings)
      requires s.Valid()
      ensures Valid() && Contents() == multiset{} && settings == s && |current.table| == s.minSize
      ensures settings == TXN_TABLE ==> LoadOk(|Contents()|, |current.table|)
      ensures fresh(current) && fresh(prev)
    {
      settings := s;
      current := new HTable(s.minSize);
      prev := new HTable(s.minSize);
      migratePos := 0;
    }

    /** Moves on past an empty chain, or moves one node over. */
    method MigrateOne()
      requires Valid() && prev.size > 0
      modifies `migratePos, current, prev
      ensures Valid() && Contents() == old(Contents())
      ensures |current.table| == old(|current.table|) && |prev.table| == old(|prev.table|)
      ensures old(migratePos) < |old(prev.table)|
      ensures if old(prev.table)[old(migratePos)] == []
              then prev.size == old(prev.size) && migratePos == old(migratePos) + 1
              else prev.size == old(prev.size) - 1 && migratePos == old(migratePos)
    {
      InBounds(prev.table, migratePos);
      hide Filed, Nodes;
      if prev.table[migratePos] == [] {
        migratePos := migratePos + 1;
        return;
      }
      MoveOne();
    }

    /** Hands the first node of the chain at the migration position over. */
    method MoveOne()
      requires Valid() && migratePos < |prev.table| && prev.table[migratePos] != []
      modifies current, prev
      ensures Valid() && Contents() == old(Contents())
      ensures |current.table| == old(|current.table|) && |prev.table| == old(|prev.table|)
      ensures prev.size == old(prev.size) - 1
    {
      hide Filed, Nodes;
      ghost var a, b, was := current.Contents(), prev.Contents(), prev.table;
      var node := prev.Delete(migratePos, 0);
      Handover(a, b, node);
      PrefixStaysEmpty(was, prev.table, migratePos, 0, migratePos);
      current.Insert(node);
    }

    method FinishRehashing()
      requires Valid()
      modifies `migratePos, current, prev
      ensures Valid() && Contents() == old(Contents()) && prev.size == 0
      ensures |current.table| == old(|current.table|)
    {
      while prev.size > 0
        invariant Valid() && Contents() == old(Contents()) && |current.table| == old(|current.table|)
        invariant |prev.table| == old(|prev.table|)
        decreases prev.size, |prev.table| - migratePos
      {
        MigrateOne();
      }
    }

    /** A turn for each unit of work the settings allow, or until the old table is empty: a turn
        moves one node or passes one empty chain. */
    method HelpRehashing()
      requires Valid()
      modifies `migratePos, current, prev
      ensures Valid() && Contents() == old(Contents()) && |current.table| == old(|current.table|)
      ensures Helped(old(prev.size), old(migratePos))
    {
      var work := 0;
      while work < settings.work && prev.size > 0
        invariant Valid() && Contents() == old(Contents()) && |current.table| == old(|current.table|)
        invariant prev.size <= old(prev.size) && migratePos >= old(migratePos) && work <= settings.work
        invariant work == (old(prev.size) - prev.size) + (migratePos - old(migratePos))
      {
        work := work + 1;
        MigrateOne();
      }
    }

    /** Finishes the rehash in progress and starts one into a table of newcap chains, if it can
        be allocated. */
    method TriggerRehashing(newcap: nat, alloc: bool) returns (ok: bool)
      requires Valid() && newcap > 0
      modifies `current, `prev, `migratePos, current, prev
      ensures Valid() && Contents() == old(Contents()) && ok == alloc
      ensures |current.table| == if ok then newcap else old(|current.table|)
      ensures ok ==> prev.size == |Contents()| && migratePos == 0
      ensures fresh({current, prev} - {old(current), old(prev)})
    {
      FinishRehashing();
      if !alloc {
        return false;
      }
      assert prev.Contents() == multiset{};
      var fresh_ := new HTable(newcap);
      prev := current;
      current := fresh_;
      migratePos := 0;
      return true;
    }

    /** Looks in the new table first, then in the old.  With one node a key it is a map
        lookup. */
    method Lookup(hcode: nat, key: nat) returns (r: Option<Node>)
      requires Valid()
      ensures r.Some? ==> r.value in Contents() && r.value.hcode == hcode && r.value.key == key
      ensures r.None? ==> forall n :: n in Contents() ==> !(n.hcode == hcode && n.key == key)
      ensures UniqueKeys(Contents()) ==> forall n :: n in Contents() && n.hcode == hcode && n.key == key ==> r == Some(n)
    {
      r := Find(hcode, key);
      if r.Some? && UniqueKeys(Contents()) {
        LookupIsExact(Contents(), hcode, key, r.value);
      }
    }

    method Find(hcode: nat, key: nat) returns (r: Option<Node>)
      requires Valid()
      ensures r.Some? ==> r.value in Contents() && r.value.hcode == hcode && r.value.key == key
      ensures r.None? ==> forall n :: n in Contents() ==> !(n.hcode == hcode && n.key == key)
    {
      var from := current.Lookup(hcode, key);
      if from.Some? {
        return Some(current.table[hcode % |current.table|][from.value]);
      }
      from := prev.Lookup(hcode, key);
      if from.Some? {
        return Some(prev.table[hcode % |prev.table|][from.value]);
      }
      return None;
    }

    method Insert(node: Node, alloc: bool) returns (ok: bool)
      requires Valid()
      modifies `current, `prev, `migratePos, current, prev
      ensures Valid() && fresh({current, prev} - {old(current), old(prev)})
      ensures Contents() == if ok then old(Contents()) + multiset{node} else old(Contents())
      ensures var cap, size := old(|current.table|), |old(Contents())|;
              var grows := size + 1 >= cap * settings.maxLoad && cap * 2 <= settings.maxSize;
              (ok <==> !grows || alloc) && |current.table| == if grows && alloc then cap * 2 else cap
      ensures settings == TXN_TABLE && LoadOk(|old(Contents())|, old(|current.table|)) ==>
                LoadOk(|Contents()|, |current.table|)
      ensures UniqueKeys(old(Contents())) && Absent(old(Contents()), node.hcode, node.key) ==> UniqueKeys(Contents())
      ensures ok ==> if |current.table| == old(|current.table|) then Helped(old(prev.size), old(migratePos))
                     else Helped(|old(Contents())|, 0)
    {
      hide Filed, Nodes, UniqueKeys, LoadOk;
      ghost var nodes, cap := Contents(), |current.table|;
      ok := Grow(alloc);
      if !ok {
        return;
      }
      AddedFirst(current.Contents(), prev.Contents(), node);
      InsertUnique(nodes, node);
      GrowKeepsLoad(|nodes|, cap, |current.table|, settings);
      current.Insert(node);
      HelpRehashing();
      ok := true;
    }

    /** The rehash of size nodes that stood at pos has been taken on by a full round of help, or
        to its end. */
    ghost predicate Helped(size: nat, pos: nat)
      reads this, prev
    {
      && prev.size <= size && pos <= migratePos
      && var turns := (size - prev.size) + (migratePos - pos);
         turns <= settings.work && (turns == settings.work || prev.size == 0)
    }

    /** Doubles a table that one more node would fill, unless it may not grow. */
    method Grow(alloc: bool) returns (ok: bool)
      requires Valid()
      modifies `current, `prev, `migratePos, current, prev
      ensures Valid() && Contents() == old(Contents()) && fresh({current, prev} - {old(current), old(prev)})
      ensures var cap, size := old(|current.table|), |old(Contents())|;
              var grows := size + 1 >= cap * settings.maxLoad && cap * 2 <= settings.maxSize;
              (ok <==> !grows || alloc) && |current.table| == if grows && alloc then cap * 2 else cap
      ensures ok ==> if |current.table| == old(|current.table|)
                     then prev.size == old(prev.size) && migratePos == old(migratePos)
                     else prev.size == |Contents()| && migratePos == 0
    {
      hide Filed, Nodes;
      ok := true;
      var size := current.size + prev.size;
      assert size == |Contents()|;
      var threshold := |current.table| * settings.maxLoad;
      if size + 1 >= threshold {
        var newcap := |current.table| * 2;
        if newcap <= settings.maxSize {
          ok := TriggerRehashing(newcap, alloc);
        }
      }
    }

    /** Removes one matching node, or none. */
    method Delete(hcode: nat, key: nat, alloc: bool) returns (ok: bool, dest: Option<Node>)
      requires Valid()
      modifies `current, `prev, `migratePos, current, prev
      ensures Valid() && fresh({current, prev} - {old(current), old(prev)})
      ensures dest.Some? ==> ok && dest.value in old(Contents()) && dest.value.hcode == hcode && dest.value.key == key
                             && Contents() == old(Contents()) - multiset{dest.value}
      ensures dest.None? ==> Contents() == old(Contents())
      ensures ok && dest.None? ==> forall n :: n in old(Contents()) ==> !(n.hcode == hcode && n.key == key)
      ensures var cap, size := old(|current.table|), |old(Contents())|;
              var shrinks := size <= (cap + 1) * settings.minLoad + 1 && cap / 2 >= settings.minSize;
              (ok <==> !shrinks || alloc) && |current.table| == if shrinks && alloc then cap / 2 else cap
      ensures settings == TXN_TABLE && LoadOk(|old(Contents())|, old(|current.table|)) ==>
                LoadOk(|Contents()|, |current.table|)
      ensures UniqueKeys(old(Contents())) ==> UniqueKeys(Contents())
    {
      hide Filed, Nodes, UniqueKeys, LoadOk;
      dest := None;
      ghost var nodes, cap := Contents(), |current.table|;
      ok := Shrink(alloc);
      if ok {
        dest := Remove(hcode, key);
      }
      ShrinkKeepsLoad(|nodes|, |Contents()|, cap, |current.table|, settings);
      if dest.Some? {
        DeleteUnique(nodes, dest.value);
      }
    }

    /** Halves a table that has become too empty. */
    method Shrink(alloc: bool) returns (ok: bool)
      requires Valid()
      modifies `current, `prev, `migratePos, current, prev
      ensures Valid() && Contents() == old(Contents()) && fresh({current, prev} - {old(current), old(prev)})
      ensures var cap, size := old(|current.table|), |old(Contents())|;
              var shrinks := size <= (cap + 1) * settings.minLoad + 1 && cap / 2 >= settings.minSize;
              (ok <==> !shrinks || alloc) && |current.table| == if shrinks && alloc then cap / 2 else cap
    {
      hide Filed, Nodes;
      ok := true;
      var size := current.size + prev.size;
      assert size == |Contents()|;
      var threshold := (|current.table| + 1) * settings.minLoad;
      if size <= threshold + 1 {
        var newcap := |current.table| / 2;
        if newcap >= settings.minSize {
          ok := TriggerRehashing(newcap, alloc);
        }
      }
    }

    method Remove(hcode: nat, key: nat) returns (dest: Option<Node>)
      requires Valid()
      modifies current, prev
      ensures Valid() && |current.table| == old(|current.table|)
      ensures dest.Some? ==> dest.value in old(Contents()) && dest.value.hcode == hcode && dest.value.key == key
                             && Contents() == old(Contents()) - multiset{dest.value}
      ensures dest.None? ==> Contents() == old(Contents())
                             && forall n :: n in old(Contents()) ==> !(n.hcode == hcode && n.key == key)
    {
      hide Filed, Nodes;
      ghost var a, b := current.Contents(), prev.Contents();
      var from := current.Lookup(hcode, key);
      if from.Some? {
        var node := current.Delete(hcode % |current.table|, from.value);
        TakenFirst(a, b, node);
        return Some(node);
      }
      from := prev.Lookup(hcode, key);
      if from.Some? {
        var node := prev.Delete(hcode % |prev.table|, from.value);
        Handover(a, b, node);
        PrefixStaysEmpty(old(prev.table), prev.table, hcode % |prev.table|, from.value, migratePos);
        return Some(node);
      }
      return None;
    }
  }

  lemma PrefixStaysEmpty(was: seq<seq<Node>>, now: seq<seq<Node>>, pos: nat, k: nat, n: nat)
    requires pos < |was| && k < |was[pos]| && n <= |was| && now == was[pos := was[pos][..k] + was[pos][k + 1..]]
    requires forall i :: 0 <= i < n ==> was[i] == []
    ensures forall i :: 0 <= i < n ==> now[i] == []
  {}

  /** A node handed from one table to the other is neither lost nor duplicated. */
  lemma Handover(a: multiset<Node>, b: multiset<Node>, node: Node)
    requires node in b
    ensures (a + multiset{node}) + (b - multiset{node}) == a + b
    ensures a + (b - multiset{node}) == (a + b) - multiset{node}
  {}

  lemma AddedFirst(a: multiset<Node>, b: multiset<Node>, node: Node)
    ensures (a + multiset{node}) + b == (a + b) + multiset{node}
  {}

  lemma TakenFirst(a: multiset<Node>, b: multiset<Node>, node: Node)
    requires node in a
    ensures (a - multiset{node}) + b == (a + b) - multiset{node}
  {}

  /** While the old table holds a node, some chain at or above the migration position is not
      empty, so the position stays in bounds. */
  lemma InBounds(table: seq<seq<Node>>, pos: nat)
    requires pos <= |table| && (forall i :: 0 <= i < pos ==> table[i] == []) && |Nodes(table)| > 0
    ensures pos < |table|
  {
    NoNodes(table);
  }

  // ---------------------------------------------------------------- what the load settings buy

  /** The load of the transaction table: on the average fewer than 8 nodes a chain, unless doubling
      would pass the greatest size. */
  predicate LoadOk(size: nat, cap: nat) {
    cap >= 10 && (size < 8 * cap || 2 * cap > 2048)
  }

  lemma GrowKeepsLoad(size: nat, cap: nat, cap': nat, s: Settings)
    requires var grows := size + 1 >= cap * s.maxLoad && cap * 2 <= s.maxSize; cap' == if grows then cap * 2 else cap
    ensures s == TXN_TABLE && LoadOk(size, cap) ==> LoadOk(size + 1, cap')
  {}

  lemma ShrinkKeepsLoad(size: nat, size': nat, cap: nat, cap': nat, s: Settings)
    requires size' <= size
    requires cap' == cap || (size <= (cap + 1) * s.minLoad + 1 && cap / 2 >= s.minSize && cap' == cap / 2)
    ensures s == TXN_TABLE && LoadOk(size, cap) ==> LoadOk(size', cap')
  {}

  // ---------------------------------------------------------------- one node a key

  /** No node is filed under the key. */
  ghost predicate Absent(nodes: multiset<Node>, hcode: nat, key: nat) {
    forall n :: n in nodes ==> !(n.hcode == hcode && n.key == key)
  }

  ghost predicate UniqueKeys(nodes: multiset<Node>) {
    forall a, b :: a in nodes && b in nodes - multiset{a} ==> !(b.hcode == a.hcode && b.key == a.key)
  }

  /** With one node a key, whatever a lookup finds is the only node filed under the key. */
  lemma LookupIsExact(nodes: multiset<Node>, hcode: nat, key: nat, found: Node)
    requires UniqueKeys(nodes) && found in nodes && found.hcode == hcode && found.key == key
    ensures forall n :: n in nodes && n.hcode == hcode && n.key == key ==> n == found
  {
    forall n | n in nodes && n != found
      ensures !(n.hcode == hcode && n.key == key)
    {
      assert n in nodes - multiset{found};
    }
  }

  /** Inserting under an absent key keeps one node a key. */
  lemma InsertUnique(nodes: multiset<Node>, node: Node)
    ensures UniqueKeys(nodes) && Absent(nodes, node.hcode, node.key) ==>
              UniqueKeys(nodes + multiset{node})
  {
    if UniqueKeys(nodes) && Absent(nodes, node.hcode, node.key) {
      forall a, b | a in nodes + multiset{node} && b in nodes + multiset{node} - multiset{a}
        ensures !(b.hcode == a.hcode && b.key == a.key)
      {
        if a == node {
          assert b in nodes;
        } else if b == node {
          assert !(a.hcode == node.hcode && a.key == node.key);
        } else {
          assert b in nodes - multiset{a};
        }
      }
    }
  }

  lemma DeleteUnique(nodes: multiset<Node>, node: Node)
    ensures UniqueKeys(nodes) ==> UniqueKeys(nodes - multiset{node})
  {
    if UniqueKeys(nodes) {
      forall a, b | a in nodes - multiset{node} && b in nodes - multiset{node} - multiset{a}
        ensures !(b.hcode == a.hcode && b.key == a.key)
      {
        assert b in nodes - multiset{a};
      }
    }
  }

  lemma TwoKeysApart(nodes: multiset<Node>, a: Node, b: Node)
    requires UniqueKeys(nodes) && a.hcode == b.hcode && a.key != b.key
    requires Absent(nodes, a.hcode, a.key) && Absent(nodes, b.hcode, b.key)
    ensures Absent(nodes + multiset{a}, b.hcode, b.key)
    ensures var all := nodes + multiset{a} + multiset{b};
            && UniqueKeys(nodes + multiset{a}) && UniqueKeys(all) && a in all && b in all
            && (forall n :: n in all && n.hcode == a.hcode && n.key == a.key ==> n == a)
            && all - multiset{a} == nodes + multiset{b} && UniqueKeys(nodes + multiset{b})
            && b in nodes + multiset{b} && Absent(nodes + multiset{b}, a.hcode, a.key)
  {
    InsertUnique(nodes, a);
    InsertUnique(nodes, b);
    InsertUnique(nodes + multiset{a}, b);
    LookupIsExact(nodes + multiset{a} + multiset{b}, a.hcode, a.key, a);
  }

  /** Two keys under one hash code: each lookup answers its own node, and deleting the one
      leaves the other to be found. */
  method TwoKeys(t: Adaptive, a: Node, b: Node)
    returns (first: Option<Node>, second: Option<Node>, gone: Option<Node>, left: Option<Node>)
    requires t.Valid() && UniqueKeys(t.Contents()) && a.hcode == b.hcode && a.key != b.key
    requires Absent(t.Contents(), a.hcode, a.key) && Absent(t.Contents(), b.hcode, b.key)
    modifies t, t.current, t.prev
    ensures first == Some(a) && second == Some(b) && gone == None && left == Some(b)
    ensures t.Valid() && t.Contents() == old(t.Contents()) + multiset{b}
  {
    hide *;
    ghost var all, rest := Both(t.Contents(), a, b);
    StoreBoth(t, a, b);
    first, second, gone, left := ReadBoth(t, a, b, all, rest);
  }

  lemma Both(nodes: multiset<Node>, a: Node, b: Node) returns (all: multiset<Node>, rest: multiset<Node>)
    requires UniqueKeys(nodes) && a.hcode == b.hcode && a.key != b.key
    requires Absent(nodes, a.hcode, a.key) && Absent(nodes, b.hcode, b.key)
    ensures all == nodes + multiset{a} + multiset{b} && rest == nodes + multiset{b}
    ensures UniqueKeys(all) && a in all && b in all && rest == all - multiset{a}
    ensures UniqueKeys(rest) && b in rest && Absent(rest, a.hcode, a.key)
  {
    all, rest := nodes + multiset{a} + multiset{b}, nodes + multiset{b};
    TwoKeysApart(nodes, a, b);
  }

  method StoreBoth(t: Adaptive, a: Node, b: Node)
    requires t.Valid()
    modifies t, t.current, t.prev
    ensures t.Valid() && t.Contents() == old(t.Contents()) + multiset{a} + multiset{b}
    ensures fresh({t.current, t.prev} - {old(t.current), old(t.prev)})
  {
    hide *;
    var inserted := t.Insert(a, true);
    inserted := t.Insert(b, true);
  }

  method ReadBoth(t: Adaptive, a: Node, b: Node, ghost all: multiset<Node>, ghost rest: multiset<Node>)
    returns (first: Option<Node>, second: Option<Node>, gone: Option<Node>, left: Option<Node>)
    requires t.Valid() && t.Contents() == all && rest == all - multiset{a}
    requires UniqueKeys(all) && a in all && b in all
    requires UniqueKeys(rest) && b in rest && Absent(rest, a.hcode, a.key)
    modifies t, t.current, t.prev
    ensures first == Some(a) && second == Some(b) && gone == None && left == Some(b)
    ensures t.Valid() && t.Contents() == rest
  {
    hide *;
    first := t.Lookup(a.hcode, a.key);
    second := t.Lookup(b.hcode, b.key);
    DeleteOnly(t, a);
    gone := NotThere(t, a.hcode, a.key);
    left := t.Lookup(b.hcode, b.key);
  }

  method DeleteOnly(t: Adaptive, a: Node)
    requires t.Valid() && UniqueKeys(t.Contents()) && a in t.Contents()
    modifies t, t.current, t.prev
    ensures t.Valid() && t.Contents() == old(t.Contents()) - multiset{a}
    ensures fresh({t.current, t.prev} - {old(t.current), old(t.prev)})
  {
    ghost var nodes := t.Contents();
    LookupIsExact(nodes, a.hcode, a.key, a);
    hide *;
    var ok, dest := t.Delete(a.hcode, a.key, true);
    assert dest == Some(a);
  }

  method NotThere(t: Adaptive, hcode: nat, key: nat) returns (r: Option<Node>)
    requires t.Valid() && Absent(t.Contents(), hcode, key)
    ensures r == None
  {
    r := t.Lookup(hcode, key);
  }
}
