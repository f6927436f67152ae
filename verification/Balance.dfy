/** Evening out neighbouring pages of the R+tree: data lists and inner nodes, whose arrays are
    shifted in place. */
module Balance {

  // ---------------------------------------------------------------- data lists

  class DataList {
    const data: array<bv8>
    var used: nat

    ghost predicate Valid()
      reads this
    {
      used <= data.Length
    }

    ghost function Contents(): (s: seq<bv8>)
      requires Valid()
      reads this, data
    {
      data[..used]
    }

    constructor (size: nat)
      ensures Valid() && Contents() == [] && data.Length == size && fresh(data)
    {
      data := new bv8[size];
      used := 0;
    }

    function Avail(): nat
      requires Valid()
      reads this
    {
      data.Length - used
    }

    /** Appends the first nbytes of src, or as many as fit. */
    method Append(src: array<bv8>, nbytes: nat) returns (n: nat)
      requires Valid() && src != data && 0 < nbytes <= src.Length
      modifies data, `used
      ensures Valid() && n == if old(Avail()) < nbytes then old(Avail()) else nbytes
      ensures n <= nbytes && Contents() == old(Contents()) + src[..n]
    {
      var avail := data.Length - used;
      n := if avail < nbytes then avail else nbytes;
      if n > 0 {
        var tail := used;
        forall i | 0 <= i < n {
          data[tail + i] := src[i];
        }
        used := used + n;
        assert data[..tail] == old(data[..used]);
        assert data[tail..tail + n] == src[..n];
        assert data[..used] == data[..tail] + data[tail..tail + n];
      }
    }

    /** Drops the first n bytes by moving what follows to the front. */
    method CutLeft(n: nat)
      requires Valid() && n <= used
      modifies data, `used
      ensures Valid() && Contents() == old(Contents())[n..]
    {
      forall i | 0 <= i < used - n {
        data[i] := data[n + i];
      }
      used := used - n;
      assert data[..used] == old(data[..used])[n..];
    }

    /** Opens a gap of len bytes at the front; what is in the gap is left as it is. */
    method ShiftRight(len: nat)
      requires Valid() && len <= Avail()
      modifies data, `used
      ensures Valid() && used == old(used) + len && data[len..used] == old(Contents())
    {
      forall i | 0 <= i < used {
        data[len + i] := data[i];
      }
      used := used + len;
      assert data[len..used] == old(data[..used]);
    }
  }

  /** Takes the first len bytes of src, or all it has, to the end of dest. */
  method MoveLeft(dest: DataList, src: DataList, len: nat)
    requires dest.Valid() && src.Valid() && dest != src && dest.data != src.data && len <= dest.Avail()
    modifies dest.data, dest`used, src.data, src`used
    ensures dest.Valid() && src.Valid()
    ensures dest.Contents() + src.Contents() == old(dest.Contents() + src.Contents())
    ensures src.used == if len <= old(src.used) then old(src.used) - len else 0
  {
    var actual := if len < src.used then len else src.used;
    if actual > 0 {
      ghost var a, b := dest.Contents(), src.Contents();
      var n := dest.Append(src.data, actual);
      assert dest.Contents() == a + b[..actual];
      src.CutLeft(actual);
      Rejoined(a, b, actual);
    }
  }

  /** Takes the last len bytes of src, or all it has, to the front of dest. */
  method MoveRight(src: DataList, dest: DataList, len: nat)
    requires dest.Valid() && src.Valid() && dest != src && dest.data != src.data && len <= dest.Avail()
    modifies dest.data, dest`used, src.data, src`used
    ensures dest.Valid() && src.Valid()
    ensures src.Contents() + dest.Contents() == old(src.Contents() + dest.Contents())
    ensures src.used == if len <= old(src.used) then old(src.used) - len else 0
  {
    var actual := if len < src.used then len else src.used;
    if actual == 0 {
      return;
    }
    ghost var a, b := src.Contents(), dest.Contents();
    var ofst := src.used - actual;
    dest.ShiftRight(actual);
    forall i | 0 <= i < actual {
      dest.data[i] := src.data[ofst + i];
    }
    assert dest.data[actual..dest.used] == b;
    assert dest.Contents() == a[ofst..] + b;
    src.used := src.used - actual;
    assert src.Contents() == a[..ofst];
    Regrouped(a, b, ofst);
  }

  lemma Rejoined<T>(a: seq<T>, b: seq<T>, n: nat)
    requires n <= |b|
    ensures (a + b[..n]) + b[n..] == a + b
  {}

  lemma Regrouped<T>(a: seq<T>, b: seq<T>, n: nat)
    requires n <= |a|
    ensures a[..n] + (a[n..] + b) == a + b
  {}

  // ---------------------------------------------------------------- inner nodes

  datatype Pair = Pair(key: nat, leaf: nat)

  /** Slot i stands for the places of key i and leaf i in the page; neither depends on the
      number of keys. */
  class InnerNode {
    const slots: array<Pair>
    var len: nat

    ghost predicate Valid()
      reads this
    {
      len <= slots.Length
    }

    ghost function Contents(): (s: seq<Pair>)
      requires Valid()
      reads this, slots
    {
      slots[..len]
    }

    constructor (max: nat)
      ensures Valid() && Contents() == [] && slots.Length == max && fresh(slots)
    {
      slots := new Pair[max];
      len := 0;
    }

    function Avail(): nat
      requires Valid()
      reads this
    {
      slots.Length - len
    }

    method PushEnd(p: Pair)
      requires Valid() && len < slots.Length
      modifies this`len, slots
      ensures Valid() && Contents() == old(Contents()) + [p]
    {
      len := len + 1;
      slots[len - 1] := p;
    }

    /** Drops the first end pairs by moving the others to the front, one by one. */
    method CutLeft(end: nat)
      requires Valid() && end <= len
      modifies this`len, slots
      ensures Valid() && Contents() == old(Contents())[end..]
    {
      if end == 0 {
        return;
      }
      var i := 0;
      while i < len - end
        invariant 0 <= i <= len - end && Valid() && len == old(len)
        invariant forall k :: 0 <= k < i ==> slots[k] == old(slots[end + k])
        invariant forall k :: i <= k < len ==> slots[k] == old(slots[k])
      {
        slots[i] := slots[end + i];
        i := i + 1;
      }
      len := len - end;
    }

    /** Opens a gap of n pairs at the front, moving the pairs from the last one down. */
    method PushLeft(n: nat)
      requires Valid() && n + len <= slots.Length
      modifies this`len, slots
      ensures Valid() && len == old(len) + n && slots[n..len] == old(Contents())
    {
      if n == 0 {
        return;
      }
      var len0 := len;
      len := n + len;
      var i := len0;
      while i > 0
        invariant 0 <= i <= len0 && len == len0 + n
        invariant forall k :: i <= k < len0 ==> slots[n + k] == old(slots[k])
        invariant forall k :: 0 <= k < i ==> slots[k] == old(slots[k])
      {
        slots[i + n - 1] := slots[i - 1];
        i := i - 1;
      }
      assert forall k :: 0 <= k < len0 ==> slots[n..len][k] == slots[n + k];
    }

    /** The child that byte loc of the rope falls under, and the bytes to the left of it: the
        last one if loc is beyond them all. */
    method ChooseLidx(loc: nat) returns (idx: nat, nleft: nat)
      requires Valid() && len > 0
      ensures idx < len && nleft == Total(Contents()[..idx])
      ensures idx > 0 ==> nleft <= loc
      ensures idx + 1 < len ==> loc < Total(Contents()[..idx + 1])
    {
      var keyTotal := 0;
      nleft := 0;
      idx := 0;
      while idx < len - 1
        invariant 0 <= idx < len && nleft == keyTotal == Total(Contents()[..idx])
        invariant idx > 0 ==> nleft <= loc
      {
        var key := slots[idx].key;
        assert Contents()[..idx + 1][..idx] == Contents()[..idx];
        keyTotal := keyTotal + key;
        if loc < keyTotal {
          return;
        }
        nleft := nleft + key;
        idx := idx + 1;
      }
    }
  }

  /** The bytes of the rope below these children. */
  function Total(pairs: seq<Pair>): nat {
    if pairs == [] then 0 else Total(pairs[..|pairs| - 1]) + pairs[|pairs| - 1].key
  }

  /** Takes the first n pairs of src to the end of dest. */
  method MovePairsLeft(dest: InnerNode, src: InnerNode, n: nat)
    requires dest.Valid() && src.Valid() && dest != src && dest.slots != src.slots
    requires n <= src.len && n <= dest.Avail()
    modifies dest`len, dest.slots, src`len, src.slots
    ensures dest.Valid() && src.Valid() && src.len == old(src.len) - n
    ensures dest.Contents() + src.Contents() == old(dest.Contents() + src.Contents())
  {
    ghost var a, b := dest.Contents(), src.Contents();
    var i := 0;
    while i < n
      invariant 0 <= i <= n && dest.Valid() && src.len == old(src.len) && src.Contents() == b
      invariant dest.Contents() == a + b[..i]
    {
      assert b[..i + 1] == b[..i] + [src.slots[i]];
      dest.PushEnd(src.slots[i]);
      i := i + 1;
    }
    src.CutLeft(n);
    Rejoined(a, b, n);
  }

  /** Takes the last n pairs of src to the front of dest. */
  method MovePairsRight(src: InnerNode, dest: InnerNode, n: nat)
    requires dest.Valid() && src.Valid() && dest != src && dest.slots != src.slots
    requires n <= src.len && n <= dest.Avail()
    modifies dest`len, dest.slots, src`len, src.slots
    ensures dest.Valid() && src.Valid() && src.len == old(src.len) - n
    ensures src.Contents() + dest.Contents() == old(src.Contents() + dest.Contents())
  {
    if n == 0 {
      return;
    }
    ghost var a, b := src.Contents(), dest.Contents();
    dest.PushLeft(n);
    CopyPairs(src, dest, n);
    src.len := src.len - n;
    assert src.Contents() == a[..|a| - n];
    Regrouped(a, b, |a| - n);
  }

  /** Writes the last n pairs of src into the first n slots of dest. */
  method CopyPairs(src: InnerNode, dest: InnerNode, n: nat)
    requires dest.Valid() && src.Valid() && dest.slots != src.slots && n <= src.len && n <= dest.len
    modifies dest.slots
    ensures dest.Contents() == src.Contents()[src.len - n..] + old(dest.slots[n..dest.len])
  {
    var di, si := 0, src.len - n;
    while di < n
      invariant 0 <= di <= n && si == src.len - n + di
      invariant forall k :: 0 <= k < di ==> dest.slots[k] == src.slots[src.len - n + k]
      invariant dest.slots[n..dest.len] == old(dest.slots[n..dest.len])
    {
      dest.slots[di] := src.slots[si];
      di := di + 1;
      si := si + 1;
    }
  }

  // ---------------------------------------------------------------- balancing

  datatype Item = Byte(b: bv8) | Entry(p: Pair)

  /** A page of the tree, as the routines over both kinds take it. */
  datatype Page = Data(list: DataList) | Inner(node: InnerNode) {

    ghost predicate Valid()
      reads Parts()
    {
      match this
      case Data(l) => l.Valid()
      case Inner(n) => n.Valid()
    }

    /** The objects that make up the page. */
    ghost function Parts(): set<object> {
      match this
      case Data(l) => {l, l.data}
      case Inner(n) => {n, n.slots}
    }

    ghost function Items(): seq<Item>
      requires Valid()
      reads Parts()
    {
      match this
      case Data(l) => AsBytes(l.Contents())
      case Inner(n) => AsEntries(n.Contents())
    }

    function Len(): (k: nat)
      requires Valid()
      reads Parts()
      ensures k == |Items()|
    {
      match this
      case Data(l) => l.used
      case Inner(n) => n.len
    }

    function Max(): nat {
      match this
      case Data(l) => l.data.Length
      case Inner(n) => n.slots.Length
    }
  }

  function AsBytes(s: seq<bv8>): (r: seq<Item>)
    ensures |r| == |s| && forall i :: 0 <= i < |s| ==> r[i] == Byte(s[i])
  {
    seq(|s|, i requires 0 <= i < |s| => Byte(s[i]))
  }

  function AsEntries(s: seq<Pair>): (r: seq<Item>)
    ensures |r| == |s| && forall i :: 0 <= i < |s| ==> r[i] == Entry(s[i])
  {
    seq(|s|, i requires 0 <= i < |s| => Entry(s[i]))
  }

  lemma BytesPlus(a: seq<bv8>, b: seq<bv8>)
    ensures AsBytes(a) + AsBytes(b) == AsBytes(a + b)
  {}

  lemma EntriesPlus(a: seq<Pair>, b: seq<Pair>)
    ensures AsEntries(a) + AsEntries(b) == AsEntries(a + b)
  {}

  /** Two different pages of one kind and capacity. */
  ghost predicate Neighbours(left: Page, right: Page) {
    left.Data? == right.Data? && left.Parts() !! right.Parts() && left.Max() == right.Max()
  }

  method PageMoveLeft(dest: Page, src: Page, n: nat)
    requires Neighbours(dest, src) && dest.Valid() && src.Valid() && n <= src.Len() && dest.Len() + n <= dest.Max()
    modifies dest.Parts(), src.Parts()
    ensures dest.Valid() && src.Valid() && src.Len() == old(src.Len()) - n
    ensures dest.Items() + src.Items() == old(dest.Items() + src.Items())
  {
    match src
    case Data(l) =>
      MoveLeft(dest.list, l, n);
      BytesPlus(dest.list.Contents(), l.Contents());
      BytesPlus(old(dest.list.Contents()), old(l.Contents()));
    case Inner(k) =>
      MovePairsLeft(dest.node, k, n);
      EntriesPlus(dest.node.Contents(), k.Contents());
      EntriesPlus(old(dest.node.Contents()), old(k.Contents()));
  }

  method PageMoveRight(src: Page, dest: Page, n: nat)
    requires Neighbours(src, dest) && dest.Valid() && src.Valid() && n <= src.Len() && dest.Len() + n <= dest.Max()
    modifies dest.Parts(), src.Parts()
    ensures dest.Valid() && src.Valid() && src.Len() == old(src.Len()) - n
    ensures src.Items() + dest.Items() == old(src.Items() + dest.Items())
  {
    match src
    case Data(l) =>
      MoveRight(l, dest.list, n);
      BytesPlus(l.Contents(), dest.list.Contents());
      BytesPlus(old(l.Contents()), old(dest.list.Contents()));
    case Inner(k) =>
      MovePairsRight(k, dest.node, n);
      EntriesPlus(k.Contents(), dest.node.Contents());
      EntriesPlus(old(k.Contents()), old(dest.node.Contents()));
  }

  /** A page is valid when it is at least half full; half of an odd capacity is rounded down. */
  predicate HalfFull(n: nat, max: nat) {
    max / 2 <= n <= max
  }

  /** What balancing makes of the lengths cur of a page and sibling of its neighbour: the page is
      left as it is, filled up to a half, or emptied; it ends empty or half full; and its
      neighbour ends half full exactly if it was, or if it took in enough. */
  predicate Balanced(cur: nat, sibling: nat, cur': nat, sibling': nat, max: nat) {
    && cur' + sibling' == cur + sibling
    && cur' == (if cur == 0 || cur >= max / 2 then cur else if sibling + cur >= max then max / 2 else 0)
    && (cur' == 0 || HalfFull(cur', max))
    && (HalfFull(sibling', max) <==> HalfFull(sibling, max) || (0 < cur < max / 2 && cur + sibling >= max / 2))
  }

  /** Balances cur with the page before it. */
  method BalanceWithPrev(prev: Page, cur: Page)
    requires Neighbours(prev, cur) && prev.Valid() && cur.Valid()
    modifies prev.Parts(), cur.Parts()
    ensures prev.Valid() && cur.Valid()
    ensures prev.Items() + cur.Items() == old(prev.Items() + cur.Items())
    ensures Balanced(old(cur.Len()), old(prev.Len()), cur.Len(), prev.Len(), prev.Max())
    ensures old(cur.Len()) == 0 || 2 * old(cur.Len()) + 1 >= prev.Max() ==>
              prev.Items() == old(prev.Items()) && cur.Items() == old(cur.Items())
    ensures cur.Len() == 0 || 2 * cur.Len() + 1 >= prev.Max()
    ensures 2 * old(prev.Len()) + 1 >= prev.Max() ==> 2 * prev.Len() + 1 >= prev.Max()
  {
    var prevLen, curLen, maxLen := prev.Len(), cur.Len(), prev.Max();
    if curLen == 0 || curLen >= maxLen / 2 {
      return;
    }
    if prevLen + curLen >= maxLen {
      PageMoveRight(prev, cur, maxLen / 2 - curLen);
    } else {
      PageMoveLeft(prev, cur, curLen);
    }
    SameLength(prev.Items(), cur.Items(), old(prev.Items()), old(cur.Items()));
  }

  /** Balances cur with the page after it. */
  method BalanceWithNext(cur: Page, next: Page)
    requires Neighbours(cur, next) && cur.Valid() && next.Valid()
    modifies cur.Parts(), next.Parts()
    ensures cur.Valid() && next.Valid()
    ensures cur.Items() + next.Items() == old(cur.Items() + next.Items())
    ensures Balanced(old(cur.Len()), old(next.Len()), cur.Len(), next.Len(), next.Max())
    ensures old(cur.Len()) == 0 || 2 * old(cur.Len()) + 1 >= next.Max() ==>
              cur.Items() == old(cur.Items()) && next.Items() == old(next.Items())
    ensures cur.Len() == 0 || 2 * cur.Len() + 1 >= next.Max()
    ensures 2 * old(next.Len()) + 1 >= next.Max() ==> 2 * next.Len() + 1 >= next.Max()
  {
    var nextLen, curLen, maxLen := next.Len(), cur.Len(), next.Max();
    if curLen == 0 || curLen >= maxLen / 2 {
      return;
    }
    if nextLen + curLen >= maxLen {
      PageMoveLeft(cur, next, maxLen / 2 - curLen);
    } else {
      PageMoveRight(cur, next, curLen);
    }
    SameLength(cur.Items(), next.Items(), old(cur.Items()), old(next.Items()));
  }

  lemma SameLength(a: seq<Item>, b: seq<Item>, a0: seq<Item>, b0: seq<Item>)
    requires a + b == a0 + b0
    ensures |a| + |b| == |a0| + |b0|
  {
    assert |a + b| == |a0 + b0|;
  }
}
