/**
 * The double-array trie (double_array_trie.cpp). Cell `t` is a child of cell `p` under byte `c`
 * when `t == base(p) + c` and `check(t) == p`. Unused cells have `check == -1` and their indices
 * are kept, in increasing order, in the free list. Only the array bookkeeping is implemented in
 * the source (the lookups are stubs), so that is what is modelled: growth, the free list, the
 * base search and the insertion loop of `build`.
 */
module DoubleArray {
  import opened Wrappers
  import opened Bytes

  datatype Node = Node(base: int, check: int, value: int)

  /** `Node()`: base 0, check -1 (unused), value -1. */
  const DefaultNode := Node(0, -1, -1)
  const RootNode: nat := 0
  const InvalidNode: int := -1
  const InitialCapacity: nat := 1024

  predicate StrictlySorted(xs: seq<int>)
  {
    forall i, j :: 0 <= i < j < |xs| ==> xs[i] < xs[j]
  }

  /** The indices `lo, lo + 1, ..., hi - 1`. */
  function Range(lo: nat, hi: nat): (r: seq<int>)
    ensures |r| == if lo <= hi then hi - lo else 0
    ensures forall k :: 0 <= k < |r| ==> r[k] == lo + k
    decreases hi - lo
  {
    if lo >= hi then [] else [lo as int] + Range(lo + 1, hi)
  }

  lemma RangeSorted(lo: nat, hi: nat)
    ensures StrictlySorted(Range(lo, hi))
    ensures forall x :: x in Range(lo, hi) <==> lo <= x < hi
  {
    var r := Range(lo, hi);
    forall x | lo <= x < hi ensures x in r {
      assert r[x - lo] == x;
    }
  }

  /** `std::lower_bound`: the first position whose element is not below `t`. */
  function LowerBound(xs: seq<int>, t: int): (k: nat)
    ensures k <= |xs|
    ensures forall j :: 0 <= j < k ==> xs[j] < t
    ensures k < |xs| ==> xs[k] >= t
  {
    if xs == [] || xs[0] >= t then 0 else 1 + LowerBound(xs[1..], t)
  }

  /** The free-list update of `build`: erase `t` at its `lower_bound` position when it is there. */
  function RemoveSorted(xs: seq<int>, t: int): seq<int>
  {
    var k := LowerBound(xs, t);
    if k < |xs| && xs[k] == t then xs[..k] + xs[k + 1..] else xs
  }

  lemma EraseAt(xs: seq<int>, k: nat, r: seq<int>)
    requires k < |xs| && r == xs[..k] + xs[k + 1..]
    ensures |r| == |xs| - 1
    ensures forall j :: 0 <= j < k ==> r[j] == xs[j]
    ensures forall j :: k <= j < |r| ==> r[j] == xs[j + 1]
  {
  }

  /** On a strictly increasing list the erase removes exactly `t` and keeps the order. */
  lemma RemoveSortedSpec(xs: seq<int>, t: int)
    requires StrictlySorted(xs)
    ensures StrictlySorted(RemoveSorted(xs, t))
    ensures forall x :: x in RemoveSorted(xs, t) <==> x in xs && x != t
    ensures |RemoveSorted(xs, t)| == if t in xs then |xs| - 1 else |xs|
  {
    var k := LowerBound(xs, t);
    if k < |xs| && xs[k] == t {
      RemoveSortedErase(xs, t, k);
    } else {
      forall j | 0 <= j < |xs| ensures xs[j] != t {
        if j > k {
          assert xs[k] < xs[j];
        }
      }
    }
  }

  lemma RemoveSortedErase(xs: seq<int>, t: int, k: nat)
    requires StrictlySorted(xs)
    requires k == LowerBound(xs, t) && k < |xs| && xs[k] == t
    ensures StrictlySorted(RemoveSorted(xs, t))
    ensures forall x :: x in RemoveSorted(xs, t) <==> x in xs && x != t
    ensures t in xs && |RemoveSorted(xs, t)| == |xs| - 1
  {
    var r := xs[..k] + xs[k + 1..];
    assert RemoveSorted(xs, t) == r;
    EraseAt(xs, k, r);
    EraseKeeps(xs, k, r);
    EraseSorted(xs, k, r);
  }

  /** Erasing position `k` of a strictly increasing list drops exactly the value there. */
  lemma EraseKeeps(xs: seq<int>, k: nat, r: seq<int>)
    requires StrictlySorted(xs) && k < |xs| && r == xs[..k] + xs[k + 1..]
    ensures forall x :: x in r <==> x in xs && x != xs[k]
  {
    EraseAt(xs, k, r);
    forall x | x in r ensures x in xs && x != xs[k] {
      var j :| 0 <= j < |r| && r[j] == x;
      if j < k { assert r[j] == xs[j]; } else { assert r[j] == xs[j + 1]; }
    }
    forall x | x in xs && x != xs[k] ensures x in r {
      var j :| 0 <= j < |xs| && xs[j] == x;
      if j < k { assert r[j] == x; } else { assert r[j - 1] == x; }
    }
  }

  lemma EraseSorted(xs: seq<int>, k: nat, r: seq<int>)
    requires StrictlySorted(xs) && k < |xs| && r == xs[..k] + xs[k + 1..]
    ensures StrictlySorted(r)
  {
    EraseAt(xs, k, r);
    forall i, j | 0 <= i < j < |r| ensures r[i] < r[j] {
      var i' := if i < k then i else i + 1;
      var j' := if j < k then j else j + 1;
      assert r[i] == xs[i'] && r[j] == xs[j'];
    }
  }

  class DoubleArrayTrie {
    var nodes: seq<Node>
    var failLinks: seq<int>
    var freeList: seq<int>
    var size: nat
    var capacity: nat

    /**
     * The array shape: both arrays have `capacity` cells, the free list is strictly increasing and
     * holds indices of cells, and every base is non-negative (bases come from `find_base`).
     */
    ghost predicate Valid()
      reads this
    {
      && |nodes| == capacity
      && |failLinks| == capacity
      && StrictlySorted(freeList)
      && (forall k :: 0 <= k < |freeList| ==> 0 <= freeList[k] < capacity)
      && (forall i :: 0 <= i < |nodes| ==> nodes[i].base >= 0)
    }

    /** The free list lists exactly the unused cells. */
    ghost predicate FreeExact()
      reads this
    {
      forall i :: 0 <= i < |nodes| ==> (i in freeList <==> nodes[i].check == -1)
    }

    /**
     * The constructor grows the empty arrays to the initial capacity, so every index, the root's
     * included, enters the free list; then the root is marked used. Unlike `clear`, it therefore
     * leaves index 0 in the free list although the root's cell is in use.
     */
    constructor ()
      ensures Valid()
      ensures capacity == InitialCapacity && size == 0
      ensures freeList == Range(0, InitialCapacity)
      ensures nodes[RootNode] == Node(0, RootNode, -1)
      ensures forall i :: 1 <= i < |nodes| ==> nodes[i] == DefaultNode
      ensures forall i :: 0 <= i < |failLinks| ==> failLinks[i] == InvalidNode
      ensures RootNode in freeList && nodes[RootNode].check != -1 && !FreeExact()
    {
      nodes, failLinks, freeList, size, capacity := [], [], [], 0, 0;
      new;
      Resize(InitialCapacity);
      assert freeList == Range(0, InitialCapacity) by {
        assert [] + Range(0, InitialCapacity) == Range(0, InitialCapacity);
      }
      assert nodes[RootNode] == DefaultNode;
      nodes := nodes[RootNode := nodes[RootNode].(check := RootNode)];
      assert freeList[0] == RootNode;
    }

    /**
     * `resize`: a no-op unless the capacity grows; otherwise both arrays grow with default cells,
     * every new index is appended to the free list, and the capacity is updated. The list is
     * sorted afterwards; since every new index exceeds every old one, the sort changes nothing.
     */
    method Resize(newCapacity: nat)
      requires Valid()
      modifies this
      ensures Valid()
      ensures newCapacity <= old(capacity) ==>
        nodes == old(nodes) && failLinks == old(failLinks) && freeList == old(freeList) && capacity == old(capacity)
      ensures newCapacity > old(capacity) ==>
        && capacity == newCapacity
        && nodes == old(nodes) + seq(newCapacity - old(capacity), _ => DefaultNode)
        && failLinks == old(failLinks) + seq(newCapacity - old(capacity), _ => InvalidNode)
        && freeList == old(freeList) + Range(old(capacity), newCapacity)
      ensures size == old(size)
      ensures old(FreeExact()) ==> FreeExact()
    {
      var oldCapacity := capacity;
      if newCapacity <= oldCapacity {
        return;
      }
      var list := freeList;
      var i := oldCapacity;
      while i < newCapacity
        invariant oldCapacity <= i <= newCapacity
        invariant list == old(freeList) + Range(oldCapacity, i)
        invariant unchanged(this)
      {
        RangeSnoc(oldCapacity, i);
        list := list + [i];
        i := i + 1;
      }
      AppendSorted(old(freeList), oldCapacity, newCapacity);
      var added := seq(newCapacity - oldCapacity, _ => DefaultNode);
      nodes := nodes + added;
      failLinks := failLinks + seq(newCapacity - oldCapacity, _ => InvalidNode);
      freeList := list;
      capacity := newCapacity;
      RangeSorted(oldCapacity, newCapacity);
      forall j | 0 <= j < |nodes| ensures (j in freeList <==> nodes[j].check == -1) || !old(FreeExact()) {
        if j >= oldCapacity {
          assert nodes[j] == added[j - oldCapacity];
        } else {
          assert nodes[j] == old(nodes)[j];
        }
      }
    }

    /**
     * `find_base`: the first candidate base, starting at the smallest free index (or the capacity
     * when none is free), at which every byte of `chars` lands on an unused cell. The arrays grow
     * whenever a probe runs past the end or the candidate reaches the capacity. Existing cells are
     * never moved, which is why a parent re-based by `build` loses sight of its earlier children.
     */
    method FindBase(chars: seq<byte>) returns (base: int)
      requires Valid()
      modifies this
      ensures Valid()
      ensures base >= 0
      ensures forall k :: 0 <= k < |chars| ==> base + Code(chars[k]) < capacity && nodes[base + Code(chars[k])].check == -1
      ensures capacity >= old(capacity) && nodes[..old(capacity)] == old(nodes)
      ensures forall i :: old(capacity) <= i < capacity ==> nodes[i] == DefaultNode
      ensures freeList == old(freeList) + Range(old(capacity), capacity)
      ensures size == old(size)
      ensures old(FreeExact()) ==> FreeExact()
    {
      ghost var c0 := capacity;
      base := if freeList == [] then capacity else freeList[0];
      assert freeList == old(freeList) + Range(c0, capacity) by {
        assert Range(c0, c0) == [];
        assert freeList + [] == freeList;
      }
      while true
        invariant Valid()
        invariant 0 <= base <= c0 <= capacity
        invariant nodes[..c0] == old(nodes)
        invariant forall i :: c0 <= i < capacity ==> nodes[i] == DefaultNode
        invariant freeList == old(freeList) + Range(c0, capacity)
        invariant size == old(size)
        invariant old(FreeExact()) ==> FreeExact()
        decreases c0 - base
      {
        ghost var capBefore := capacity;
        var conflict := Probe(base, chars, c0);
        ChainRanges(old(freeList), c0, capBefore, capacity);
        if !conflict {
          return;
        }
        base := base + 1;
        if base >= capacity {
          ghost var capBefore := capacity;
          GrowKeeps(capacity * 2, c0);
          ChainRanges(old(freeList), c0, capBefore, capacity);
        }
      }
    }

    /**
     * The inner loop of `find_base`: tries every byte at `base`, growing the arrays when a probe
     * runs past the end, and reports a conflict at the first cell already in use.
     */
    method Probe(base: nat, chars: seq<byte>, ghost c0: nat) returns (conflict: bool)
      requires Valid() && c0 <= capacity
      requires forall i :: c0 <= i < capacity ==> nodes[i] == DefaultNode
      modifies this
      ensures Valid()
      ensures capacity >= old(capacity)
      ensures nodes[..c0] == old(nodes)[..c0]
      ensures forall i :: c0 <= i < capacity ==> nodes[i] == DefaultNode
      ensures freeList == old(freeList) + Range(old(capacity), capacity)
      ensures size == old(size)
      ensures old(FreeExact()) ==> FreeExact()
      ensures conflict ==> base < c0
      ensures !conflict ==> forall k :: 0 <= k < |chars| ==> base + Code(chars[k]) < capacity && nodes[base + Code(chars[k])].check == -1
    {
      assert freeList == old(freeList) + Range(capacity, capacity) by {
        assert Range(capacity, capacity) == [];
        assert freeList + [] == freeList;
      }
      conflict := false;
      var k := 0;
      while k < |chars|
        invariant 0 <= k <= |chars|
        invariant Valid()
        invariant old(capacity) <= capacity
        invariant nodes[..c0] == old(nodes)[..c0]
        invariant forall i :: c0 <= i < capacity ==> nodes[i] == DefaultNode
        invariant freeList == old(freeList) + Range(old(capacity), capacity)
        invariant size == old(size)
        invariant old(FreeExact()) ==> FreeExact()
        invariant forall j :: 0 <= j < k ==> base + Code(chars[j]) < capacity && nodes[base + Code(chars[j])].check == -1
      {
        var target := base + Code(chars[k]);
        if target >= capacity {
          ghost var capBefore := capacity;
          GrowKeeps(target + InitialCapacity, c0);
          ChainRanges(old(freeList), old(capacity), capBefore, capacity);
        }
        if nodes[target].check != -1 {
          return true;
        }
        k := k + 1;
      }
    }

    /** `resize`, seen from a caller that tracks the cells below `c0`. */
    method GrowKeeps(newCapacity: nat, ghost c0: nat)
      requires Valid() && c0 <= capacity
      requires forall i :: c0 <= i < capacity ==> nodes[i] == DefaultNode
      modifies this
      ensures Valid()
      ensures capacity == if newCapacity > old(capacity) then newCapacity else old(capacity)
      ensures nodes[..c0] == old(nodes)[..c0]
      ensures forall i :: c0 <= i < capacity ==> nodes[i] == DefaultNode
      ensures freeList == old(freeList) + Range(old(capacity), capacity)
      ensures size == old(size)
      ensures old(FreeExact()) ==> FreeExact()
    {
      Resize(newCapacity);
      if newCapacity <= old(capacity) {
        assert Range(capacity, capacity) == [];
        assert freeList + [] == freeList;
      }
    }

    /**
     * `clear`: `capacity` default cells with the root marked used, an empty count, and the free
     * list holding every index but the root's.
     */
    method Clear()
      modifies this
      ensures Valid() && FreeExact()
      ensures capacity == InitialCapacity && size == 0
      ensures nodes == seq(InitialCapacity, i => if i == RootNode then Node(0, RootNode, -1) else DefaultNode)
      ensures failLinks == seq(InitialCapacity, _ => InvalidNode)
      ensures freeList == Range(1, InitialCapacity)
    {
      var list := [];
      var i := 1;
      while i < InitialCapacity
        invariant 1 <= i <= InitialCapacity
        invariant list == Range(1, i)
        invariant unchanged(this)
      {
        RangeSnoc(1, i);
        list := list + [i];
        i := i + 1;
      }
      nodes := seq(InitialCapacity, _ => DefaultNode);
      failLinks := seq(InitialCapacity, _ => InvalidNode);
      freeList := list;
      capacity := InitialCapacity;
      size := 0;
      nodes := nodes[RootNode := nodes[RootNode].(check := RootNode)];
      RangeSorted(1, InitialCapacity);
      forall j | 0 <= j < |nodes| ensures j in freeList <==> nodes[j].check == -1 {
        assert j in freeList <==> 1 <= j < InitialCapacity;
      }
    }

    /**
     * The bytes `s` for which cell `nodes[p].base + s` is a child of `p`, in increasing order;
     * none when `p` has no base yet.
     */
    method Siblings(p: nat) returns (sibs: seq<byte>)
      requires Valid() && p < capacity
      ensures forall k :: 0 <= k < |sibs| ==>
        nodes[p].base + Code(sibs[k]) < capacity && nodes[nodes[p].base + Code(sibs[k])].check == p
      ensures nodes[p].base == 0 ==> sibs == []
      ensures nodes[p].base != 0 ==>
        forall s :: 0 <= s < 256 && nodes[p].base + s < capacity && nodes[nodes[p].base + s].check == p
          ==> ByteOf(s) in sibs
      ensures forall i, j :: 0 <= i < j < |sibs| ==> Code(sibs[i]) < Code(sibs[j])
    {
      sibs := [];
      if nodes[p].base != 0 {
        var s := 0;
        while s < 256
          invariant 0 <= s <= 256
          invariant forall k :: 0 <= k < |sibs| ==>
            nodes[p].base + Code(sibs[k]) < capacity && nodes[nodes[p].base + Code(sibs[k])].check == p
          invariant forall t ::
            0 <= t < s && nodes[p].base + t < capacity && nodes[nodes[p].base + t].check == p ==> ByteOf(t) in sibs
          invariant forall k :: 0 <= k < |sibs| ==> Code(sibs[k]) < s
          invariant forall i, j :: 0 <= i < j < |sibs| ==> Code(sibs[i]) < Code(sibs[j])
        {
          if nodes[p].base + s < capacity && nodes[nodes[p].base + s].check == p {
            sibs := sibs + [ByteOf(s)];
          }
          s := s + 1;
        }
      }
    }

    /**
     * One step of `build`'s walk: from cell `current` along byte `c`. When the child is missing,
     * the parent gets a fresh base able to hold its children and `c` (the children themselves stay
     * where they were); a cell still unused at the target is claimed for `current` and leaves the
     * free list.
     */
    method Descend(current: nat, c: byte) returns (target: nat)
      requires Valid() && FreeExact() && current < capacity
      requires nodes[RootNode].check == RootNode && nodes[current].check != -1
      modifies this
      ensures Valid() && FreeExact()
      ensures capacity >= old(capacity) && size == old(size)
      ensures nodes[RootNode].check == RootNode
      ensures target < capacity && target == nodes[current].base + Code(c)
      ensures nodes[target].check == current && nodes[current].check == old(nodes)[current].check
      ensures forall i :: 0 <= i < old(capacity) && i != current && old(nodes)[i].check != -1 ==>
        nodes[i] == old(nodes)[i]
      ensures ValuesKept(old(nodes), nodes)
    {
      var t := nodes[current].base + Code(c);
      if t >= capacity || nodes[t].check != current {
        Rebase(current, c);
      }
      t := nodes[current].base + Code(c);
      // The source grows the arrays here if the target lies past the end; both branches above
      // leave it inside, so that growth never happens.
      assert t < capacity;
      if nodes[t].check == -1 {
        Claim(t, current);
      }
      target := t;
    }

    /** Gives `current` a base at which its present children and byte `c` all land on free cells. */
    method Rebase(current: nat, c: byte)
      requires Valid() && FreeExact() && current < capacity
      modifies this
      ensures Valid() && FreeExact()
      ensures capacity >= old(capacity) && size == old(size)
      ensures nodes[current].base + Code(c) < capacity && nodes[nodes[current].base + Code(c)].check == -1
      ensures forall i :: 0 <= i < old(capacity) ==> nodes[i].check == old(nodes)[i].check
      ensures forall i :: 0 <= i < old(capacity) && i != current ==> nodes[i] == old(nodes)[i]
      ensures nodes[current].value == old(nodes)[current].value
      ensures forall i :: old(capacity) <= i < capacity ==> nodes[i] == DefaultNode
    {
      var sibs := Siblings(current);
      MoveBase(current, sibs, c);
    }

    /** The part of `Rebase` after the children are listed: the new base must fit `sibs` and `c`. */
    method MoveBase(current: nat, sibs: seq<byte>, c: byte)
      requires Valid() && FreeExact() && current < capacity
      modifies this
      ensures Valid() && FreeExact()
      ensures capacity >= old(capacity) && size == old(size)
      ensures nodes[current].base + Code(c) < capacity && nodes[nodes[current].base + Code(c)].check == -1
      ensures forall k :: 0 <= k < |sibs| ==>
        nodes[current].base + Code(sibs[k]) < capacity && nodes[nodes[current].base + Code(sibs[k])].check == -1
      ensures forall i :: 0 <= i < old(capacity) ==> nodes[i].check == old(nodes)[i].check
      ensures forall i :: 0 <= i < old(capacity) && i != current ==> nodes[i] == old(nodes)[i]
      ensures nodes[current].value == old(nodes)[current].value
      ensures forall i :: old(capacity) <= i < capacity ==> nodes[i] == DefaultNode
    {
      var newBase := FindBase(sibs + [c]);
      assert newBase + Code(c) < capacity && nodes[newBase + Code(c)].check == -1 by {
        assert (sibs + [c])[|sibs|] == c;
      }
      assert forall k :: 0 <= k < |sibs| ==> (sibs + [c])[k] == sibs[k];
      assert forall i :: 0 <= i < old(capacity) ==> nodes[i] == nodes[..old(capacity)][i];
      nodes := nodes[current := nodes[current].(base := newBase)];
    }

    /** Marks the unused cell `t` as a child of `current` and erases it from the free list. */
    method Claim(t: nat, current: nat)
      requires Valid() && FreeExact() && t < capacity && nodes[t].check == -1
      modifies this
      ensures Valid() && FreeExact()
      ensures capacity == old(capacity) && size == old(size)
      ensures nodes == old(nodes)[t := old(nodes)[t].(check := current)]
      ensures freeList == RemoveSorted(old(freeList), t)
    {
      assert t in freeList;
      RemoveSortedSpec(freeList, t);
      nodes := nodes[t := nodes[t].(check := current)];
      freeList := RemoveSorted(freeList, t);
      forall i | 0 <= i < |nodes| ensures i in freeList <==> nodes[i].check == -1 {
        if i != t {
          assert nodes[i] == old(nodes)[i];
        }
      }
      assert forall k :: 0 <= k < |freeList| ==> freeList[k] in old(freeList);
    }

    /**
     * `build`: starts from `clear`, walks each key from the root creating cells as needed, stores
     * the entry's value in the cell reached, and counts every entry whose value is not -1 (a key
     * given twice is counted twice). The last entry can be looked up again by walking its key;
     * an earlier one may not, because re-basing a shared ancestor leaves its children behind.
     */
    method Build(entries: seq<(Str, int)>)
      modifies this
      ensures Valid() && FreeExact()
      ensures capacity >= InitialCapacity
      ensures nodes[RootNode].check == RootNode
      ensures size == ValuedCount(entries)
      ensures entries != [] && NoLeadingNul(entries[|entries| - 1].0) ==>
        Lookup(nodes, entries[|entries| - 1].0) == Some(entries[|entries| - 1].1)
    {
      Clear();
      var e := 0;
      while e < |entries|
        invariant 0 <= e <= |entries|
        invariant Valid() && FreeExact()
        invariant capacity >= InitialCapacity
        invariant nodes[RootNode].check == RootNode
        invariant size == ValuedCount(entries[..e])
        invariant e > 0 && NoLeadingNul(entries[e - 1].0) ==> Lookup(nodes, entries[e - 1].0) == Some(entries[e - 1].1)
      {
        var (key, value) := entries[e];
        ghost var cell := AddEntry(key, value);
        ValuedCountSnoc(entries, e);
        e := e + 1;
      }
      assert entries[..e] == entries;
    }

    /**
     * One entry of `build`: walk or create the path of `key`, then store `value` at its end,
     * the cell `cell`; no other cell's value changes. Unless the key starts with byte 0 (which
     * the root's initial base 0 sends back to the root itself), walking the key afterwards
     * reaches that cell.
     */
    method AddEntry(key: Str, value: int) returns (ghost cell: nat)
      modifies this
      requires Valid() && FreeExact()
      requires capacity >= InitialCapacity && nodes[RootNode].check == RootNode
      ensures Valid() && FreeExact()
      ensures capacity >= InitialCapacity && nodes[RootNode].check == RootNode
      ensures size == old(size) + (if value != -1 then 1 else 0)
      ensures cell < capacity && nodes[cell].value == value
      ensures forall i :: 0 <= i < capacity && i != cell ==>
        nodes[i].value == if i < old(capacity) then old(nodes)[i].value else -1
      ensures NoLeadingNul(key) ==> Walk(nodes, key) == Some(cell) && Lookup(nodes, key) == Some(value)
    {
      var current: nat := RootNode;
      ghost var path: seq<nat> := [RootNode];
      var i := 0;
      while i < |key|
        invariant 0 <= i <= |key|
        invariant Valid() && FreeExact()
        invariant capacity >= InitialCapacity && capacity >= old(capacity)
        invariant nodes[RootNode].check == RootNode
        invariant current < capacity && nodes[current].check != -1
        invariant size == old(size)
        invariant ValuesKept(old(nodes), nodes)
        invariant |path| == i + 1 && path[i] == current
        invariant NoLeadingNul(key) ==> PathOf(nodes, key[..i], path) && Distinct(path)
      {
        ghost var before := nodes;
        current := Descend(current, key[i]);
        ValuesKeptTrans(old(nodes), before, nodes);
        if NoLeadingNul(key) {
          PathExtend(before, nodes, key[..i], path, key[i], current);
          assert key[..i + 1] == key[..i] + [key[i]];
        }
        path := path + [current];
        i := i + 1;
      }
      assert key[..i] == key;
      ghost var walked := nodes;
      nodes := nodes[current := nodes[current].(value := value)];
      if value != -1 {
        size := size + 1;
      }
      cell := current;
      if NoLeadingNul(key) {
        PathWalk(walked, key, path);
        WalkIgnoresValues(walked, nodes, key);
      }
    }

    /** `size()`. */
    function Size(): nat
      reads this
    {
      size
    }

    /** `capacity()`. */
    function Capacity(): nat
      reads this
    {
      capacity
    }
  }

  // ---- walking a key ----

  /** Every cell of `n0` keeps its value in `n1`, and every cell added since holds -1. */
  ghost predicate ValuesKept(n0: seq<Node>, n1: seq<Node>)
  {
    |n0| <= |n1| && forall k :: 0 <= k < |n1| ==> n1[k].value == if k < |n0| then n0[k].value else -1
  }

  lemma ValuesKeptTrans(n0: seq<Node>, n1: seq<Node>, n2: seq<Node>)
    requires ValuesKept(n0, n1) && ValuesKept(n1, n2)
    ensures ValuesKept(n0, n2)
  {
  }

  /** The child of cell `p` under byte `c`: cell `base(p) + c`, if it is there and checks back to `p`. */
  function Child(nodes: seq<Node>, p: nat, c: byte): Option<nat>
  {
    if p < |nodes| && 0 <= nodes[p].base + Code(c) < |nodes| && nodes[nodes[p].base + Code(c)].check == p
    then Some(nodes[p].base + Code(c))
    else None
  }

  /** The cell reached by following `key` from the root, byte by byte. */
  function Walk(nodes: seq<Node>, key: Str): Option<nat>
    decreases |key|
  {
    if key == [] then Some(RootNode)
    else
      match Walk(nodes, key[..|key| - 1])
      case None => None
      case Some(p) => Child(nodes, p, key[|key| - 1])
  }

  /** The value stored at the end of `key`'s walk. */
  function Lookup(nodes: seq<Node>, key: Str): Option<int>
  {
    match Walk(nodes, key)
    case Some(p) => if p < |nodes| then Some(nodes[p].value) else None
    case None => None
  }

  predicate NoLeadingNul(key: Str)
  {
    key == [] || key[0] != '\0'
  }

  /** `path` lists the cells of `key`'s walk: the root, then one child per byte. */
  ghost predicate PathOf(nodes: seq<Node>, key: Str, path: seq<nat>)
  {
    && |path| == |key| + 1
    && path[0] == RootNode
    && forall j :: 0 <= j < |key| ==> Child(nodes, path[j], key[j]) == Some(path[j + 1])
  }

  ghost predicate Distinct(path: seq<nat>)
  {
    forall j, k :: 0 <= j < k < |path| ==> path[j] != path[k]
  }

  /** A listed path is the walk. */
  lemma {:induction false} PathWalk(nodes: seq<Node>, key: Str, path: seq<nat>)
    requires PathOf(nodes, key, path)
    ensures Walk(nodes, key) == Some(path[|key|])
    decreases |key|
  {
    if key != [] {
      var n := |key| - 1;
      assert PathOf(nodes, key[..n], path[..n + 1]) by {
        forall j | 0 <= j < n ensures Child(nodes, path[..n + 1][j], key[..n][j]) == Some(path[..n + 1][j + 1]) {
          assert Child(nodes, path[j], key[j]) == Some(path[j + 1]);
        }
      }
      PathWalk(nodes, key[..n], path[..n + 1]);
    }
  }

  /** The walk reads bases and checks only. */
  lemma {:induction false} WalkIgnoresValues(n0: seq<Node>, n1: seq<Node>, key: Str)
    requires |n0| == |n1| && forall i :: 0 <= i < |n0| ==> n1[i].base == n0[i].base && n1[i].check == n0[i].check
    ensures Walk(n1, key) == Walk(n0, key)
    decreases |key|
  {
    if key != [] {
      WalkIgnoresValues(n0, n1, key[..|key| - 1]);
    }
  }

  /**
   * One step of `build`'s walk keeps the cells walked so far: the step re-bases only the cell it
   * stands on, claims only an unused cell, and the new cell is not one already on the path (only
   * a first byte 0 could lead from the root back to itself).
   */
  lemma PathExtend(n0: seq<Node>, n1: seq<Node>, k: Str, path: seq<nat>, c: byte, target: nat)
    requires PathOf(n0, k, path) && Distinct(path) && NoLeadingNul(k + [c])
    requires path[|k|] < |n0| <= |n1| && n0[RootNode].check == RootNode
    requires forall i :: 0 <= i < |n0| && i != path[|k|] && n0[i].check != -1 ==> n1[i] == n0[i]
    requires n1[path[|k|]].check == n0[path[|k|]].check && n1[path[|k|]].base >= 0
    requires target < |n1| && target == n1[path[|k|]].base + Code(c) && n1[target].check == path[|k|]
    ensures PathOf(n1, k + [c], path + [target]) && Distinct(path + [target])
  {
    var current := path[|k|];
    var p := path + [target];
    var kc := k + [c];
    forall j | 0 <= j < |k| ensures Child(n1, p[j], kc[j]) == Some(p[j + 1]) {
      assert Child(n0, path[j], k[j]) == Some(path[j + 1]);
      if j > 0 {
        assert Child(n0, path[j - 1], k[j - 1]) == Some(path[j]);
      }
      assert n0[path[j]].check != -1;
      assert n1[path[j]] == n0[path[j]];
      if j + 1 < |k| {
        assert Child(n0, path[j + 1], k[j + 1]) == Some(path[j + 2]);
        assert n1[path[j + 1]] == n0[path[j + 1]];
      }
    }
    assert Child(n1, p[|k|], kc[|k|]) == Some(p[|k| + 1]);
    forall m | 0 <= m < |path| ensures path[m] != target {
      if m < |k| {
        NotOnPath(n0, n1, k, path, c, target, m);
      } else if |k| > 0 {
        assert Child(n0, path[|k| - 1], k[|k| - 1]) == Some(current);
      } else {
        assert kc[0] == c;
      }
    }
  }

  /** The new cell is none of the cells before the current one. */
  lemma NotOnPath(n0: seq<Node>, n1: seq<Node>, k: Str, path: seq<nat>, c: byte, target: nat, m: nat)
    requires PathOf(n0, k, path) && Distinct(path) && m < |k|
    requires path[|k|] < |n0| <= |n1| && n0[RootNode].check == RootNode
    requires forall i :: 0 <= i < |n0| && i != path[|k|] && n0[i].check != -1 ==> n1[i] == n0[i]
    requires target < |n1| && n1[target].check == path[|k|]
    ensures path[m] != target
  {
    if m > 0 {
      assert Child(n0, path[m - 1], k[m - 1]) == Some(path[m]);
      assert path[m - 1] != path[|k|];
    } else {
      assert path[0] != path[|k|];
    }
  }

  /** The number of entries whose value is not -1: what `build` adds to `size_`. */
  function ValuedCount(entries: seq<(Str, int)>): (n: nat)
    ensures n <= |entries|
  {
    if entries == [] then 0
    else ValuedCount(entries[..|entries| - 1]) + (if entries[|entries| - 1].1 != -1 then 1 else 0)
  }

  lemma ValuedCountSnoc(entries: seq<(Str, int)>, e: nat)
    requires e < |entries|
    ensures ValuedCount(entries[..e + 1]) == ValuedCount(entries[..e]) + (if entries[e].1 != -1 then 1 else 0)
  {
    assert entries[..e + 1][..e] == entries[..e];
  }

  /** With every value a real id, the count is the number of entries. */
  lemma {:induction false} ValuedCountAll(entries: seq<(Str, int)>)
    requires forall k :: 0 <= k < |entries| ==> entries[k].1 != -1
    ensures ValuedCount(entries) == |entries|
  {
    if entries != [] {
      ValuedCountAll(entries[..|entries| - 1]);
    }
  }

  lemma RangeAppend(a: nat, b: nat, c: nat)
    requires a <= b <= c
    ensures Range(a, b) + Range(b, c) == Range(a, c)
  {
    var l := Range(a, b) + Range(b, c);
    assert |l| == |Range(a, c)|;
    assert forall k :: 0 <= k < |l| ==> l[k] == Range(a, c)[k];
  }

  lemma ChainRanges(f: seq<int>, a: nat, b: nat, c: nat)
    requires a <= b <= c
    ensures (f + Range(a, b)) + Range(b, c) == f + Range(a, c)
  {
    RangeAppend(a, b, c);
    assert (f + Range(a, b)) + Range(b, c) == f + (Range(a, b) + Range(b, c));
  }

  lemma RangeSnoc(lo: nat, hi: nat)
    requires lo <= hi
    ensures Range(lo, hi + 1) == Range(lo, hi) + [hi]
  {
    var a := Range(lo, hi + 1);
    var b := Range(lo, hi) + [hi];
    assert |a| == |b|;
    assert forall k :: 0 <= k < |a| ==> a[k] == b[k];
  }

  /** Indices appended above every listed one keep the list strictly increasing. */
  lemma AppendSorted(xs: seq<int>, lo: nat, hi: nat)
    requires StrictlySorted(xs)
    requires forall k :: 0 <= k < |xs| ==> xs[k] < lo
    ensures StrictlySorted(xs + Range(lo, hi))
  {
    RangeSorted(lo, hi);
    var ys := xs + Range(lo, hi);
    forall i, j | 0 <= i < j < |ys| ensures ys[i] < ys[j] {
      if j < |xs| {
      } else if i < |xs| {
        assert ys[j] == lo + (j - |xs|);
      } else {
        assert ys[i] == Range(lo, hi)[i - |xs|] && ys[j] == Range(lo, hi)[j - |xs|];
      }
    }
  }
}
