/**
 * The pointer trie (trie.cpp). Nodes are kept as a value tree: each node has a child per byte
 * and a token id, -1 meaning "no token ends here" and any id >= 0 marking a token end.
 * The class `Trie` holds the root and the `size_` counter; lookups walk the tree in loops as the
 * source does, and serialisation writes the little-endian binary layout of the source.
 */
module PrefixTrie {
  import opened Wrappers
  import opened Bytes

  datatype TrieNode = TrieNode(children: map<byte, TrieNode>, tokenId: i32)

  const EmptyNode := TrieNode(map[], -1)

  const EmptyKeyError: string := "Cannot insert empty token into trie."
  const HeaderError: string := "Invalid trie serialization."
  const NodeError: string := "Invalid serialized trie structure."
  const ChildError: string := "Unexpected end of trie data."

  /** The id stored at the end of `key`'s path, or -1 when the path does not exist (`get_id`). */
  function IdOf(n: TrieNode, key: Str): int
    decreases |key|
  {
    if key == [] then n.tokenId
    else if key[0] in n.children then IdOf(n.children[key[0]], key[1..])
    else -1
  }

  /** `contains`: the path exists and its node marks a token end. */
  predicate Contains(n: TrieNode, key: Str)
  {
    IdOf(n, key) >= 0
  }

  /** The tree after `insert(key, id)`: the path is created where missing and its end gets `id`. */
  function InsertNode(n: TrieNode, key: Str, id: i32): TrieNode
    decreases |key|
  {
    if key == [] then n.(tokenId := id)
    else
      var child := if key[0] in n.children then n.children[key[0]] else EmptyNode;
      n.(children := n.children[key[0] := InsertNode(child, key[1..], id)])
  }

  lemma {:induction false} IdOfEmptyNode(key: Str)
    ensures IdOf(EmptyNode, key) == -1
  {
  }

  /** After `insert(key, id)`, `get_id(key)` is `id`. */
  lemma {:induction false} InsertThenGet(n: TrieNode, key: Str, id: i32)
    ensures IdOf(InsertNode(n, key, id), key) == id
    decreases |key|
  {
    if key != [] {
      var child := if key[0] in n.children then n.children[key[0]] else EmptyNode;
      InsertThenGet(child, key[1..], id);
    }
  }

  /** Inserting one key leaves every other key's id unchanged. */
  lemma {:induction false} InsertOther(n: TrieNode, key: Str, id: i32, other: Str)
    requires other != key
    ensures IdOf(InsertNode(n, key, id), other) == IdOf(n, other)
    decreases |key|
  {
    if key == [] {
    } else if other == [] {
    } else if other[0] != key[0] {
    } else {
      var child := if key[0] in n.children then n.children[key[0]] else EmptyNode;
      assert other[1..] != key[1..] by { assert other == [other[0]] + other[1..] && key == [key[0]] + key[1..]; }
      InsertOther(child, key[1..], id, other[1..]);
      if key[0] !in n.children {
        IdOfEmptyNode(other[1..]);
      }
    }
  }

  /**
   * The (id, length) pairs `all_prefixes` reports while walking from node `n` at text position
   * `i`, `depth` bytes below the start: one pair per token end met before the path breaks.
   */
  function MatchesFrom(n: TrieNode, text: Str, i: nat, depth: nat): seq<(int, int)>
    decreases |text| - i
  {
    if i >= |text| || text[i] !in n.children then []
    else
      var c := n.children[text[i]];
      (if c.tokenId >= 0 then [(c.tokenId as int, depth + 1)] else []) + MatchesFrom(c, text, i + 1, depth + 1)
  }

  function Matches(root: TrieNode, text: Str, start: nat): seq<(int, int)>
  {
    MatchesFrom(root, text, start, 0)
  }

  /** The node reached from `n` by following `key`, if the path exists. */
  function Follow(n: TrieNode, key: Str): Option<TrieNode>
    decreases |key|
  {
    if key == [] then Some(n)
    else if key[0] in n.children then Follow(n.children[key[0]], key[1..])
    else None
  }

  lemma {:induction false} FollowIdOf(n: TrieNode, key: Str)
    ensures Follow(n, key).None? ==> IdOf(n, key) == -1
    ensures Follow(n, key).Some? ==> IdOf(n, key) == Follow(n, key).value.tokenId
    decreases |key|
  {
    if key != [] && key[0] in n.children {
      FollowIdOf(n.children[key[0]], key[1..]);
    }
  }

  lemma {:induction false} FollowSnoc(n: TrieNode, key: Str, b: byte)
    ensures Follow(n, key + [b]) ==
      match Follow(n, key)
      case None => None
      case Some(m) => if b in m.children then Some(m.children[b]) else None
    decreases |key|
  {
    if key == [] {
      assert key + [b] == [b];
      assert [b][1..] == [];
    } else {
      assert (key + [b])[0] == key[0] && (key + [b])[1..] == key[1..] + [b];
      if key[0] in n.children {
        FollowSnoc(n.children[key[0]], key[1..], b);
      }
    }
  }

  /** A broken path stays broken: no extension of a missing path is a key. */
  lemma {:induction false} FollowNoneExtends(n: TrieNode, key: Str, more: Str)
    requires Follow(n, key).None?
    ensures Follow(n, key + more).None?
    decreases |key|
  {
    assert key != [];
    assert (key + more)[0] == key[0] && (key + more)[1..] == key[1..] + more;
    if key[0] in n.children {
      FollowNoneExtends(n.children[key[0]], key[1..], more);
    }
  }

  /** Every pair reported from node `m` (reached by `text[start..i]`) is a longer token end. */
  lemma {:induction false} MatchesSound(root: TrieNode, text: Str, start: nat, m: TrieNode, i: nat)
    requires start <= i <= |text|
    requires Follow(root, text[start..i]) == Some(m)
    ensures forall x :: x in MatchesFrom(m, text, i, i - start) ==>
      i - start < x.1 <= |text| - start && IdOf(root, text[start..start + x.1]) == x.0 >= 0
    decreases |text| - i
  {
    if i < |text| && text[i] in m.children {
      var c := m.children[text[i]];
      FollowSnoc(root, text[start..i], text[i]);
      assert text[start..i] + [text[i]] == text[start..i + 1];
      FollowIdOf(root, text[start..i + 1]);
      MatchesSound(root, text, start, c, i + 1);
      var head: seq<(int, int)> := if c.tokenId >= 0 then [(c.tokenId as int, i - start + 1)] else [];
      var tail := MatchesFrom(c, text, i + 1, i + 1 - start);
      assert MatchesFrom(m, text, i, i - start) == head + tail;
      assert text[start..start + (i - start + 1)] == text[start..i + 1];
      forall x | x in head + tail
        ensures i - start < x.1 <= |text| - start && IdOf(root, text[start..start + x.1]) == x.0 >= 0
      {
        if x in head {
          assert x == (c.tokenId as int, i - start + 1);
        } else {
          assert x in tail;
        }
      }
    }
  }

  /** Reported lengths exceed the walk's depth and strictly increase. */
  lemma {:induction false} MatchesSorted(m: TrieNode, text: Str, i: nat, depth: nat)
    ensures forall k :: 0 <= k < |MatchesFrom(m, text, i, depth)| ==> depth < MatchesFrom(m, text, i, depth)[k].1
    ensures forall k, j :: 0 <= k < j < |MatchesFrom(m, text, i, depth)| ==>
      MatchesFrom(m, text, i, depth)[k].1 < MatchesFrom(m, text, i, depth)[j].1
    decreases |text| - i
  {
    if i < |text| && text[i] in m.children {
      var c := m.children[text[i]];
      MatchesSorted(c, text, i + 1, depth + 1);
      var head: seq<(int, int)> := if c.tokenId >= 0 then [(c.tokenId as int, depth + 1)] else [];
      var tail := MatchesFrom(c, text, i + 1, depth + 1);
      var ms := head + tail;
      assert MatchesFrom(m, text, i, depth) == ms;
      assert forall k :: 0 <= k < |tail| ==> ms[|head| + k] == tail[k];
      forall k | 0 <= k < |ms| ensures depth < ms[k].1 {
        if k >= |head| { assert ms[k] == tail[k - |head|]; } else { assert ms[k] == head[k]; }
      }
      forall k, j | 0 <= k < j < |ms| ensures ms[k].1 < ms[j].1 {
        if k >= |head| {
          assert ms[k] == tail[k - |head|] && ms[j] == tail[j - |head|];
        } else {
          assert ms[j] == tail[j - |head|];
        }
      }
    }
  }

  /** Every token end on the remaining path is reported. */
  lemma {:induction false} MatchesComplete(root: TrieNode, text: Str, start: nat, m: TrieNode, i: nat)
    requires start <= i <= |text|
    requires Follow(root, text[start..i]) == Some(m)
    ensures forall l :: i - start < l <= |text| - start && PrefixId(root, text, start, l) >= 0 ==>
      (PrefixId(root, text, start, l), l) in MatchesFrom(m, text, i, i - start)
    decreases |text| - i
  {
    var ms := MatchesFrom(m, text, i, i - start);
    if i >= |text| {
    } else if text[i] !in m.children {
      forall l | i - start < l <= |text| - start
        ensures PrefixId(root, text, start, l) == -1
      {
        FollowSnoc(root, text[start..i], text[i]);
        assert text[start..i] + [text[i]] == text[start..i + 1];
        FollowNoneExtends(root, text[start..i + 1], text[i + 1..start + l]);
        assert text[start..i + 1] + text[i + 1..start + l] == text[start..start + l];
        FollowIdOf(root, text[start..start + l]);
      }
      assert ms == [];
      assert forall l :: i - start < l <= |text| - start ==> PrefixId(root, text, start, l) < 0;
    } else {
      var c := m.children[text[i]];
      FollowSnoc(root, text[start..i], text[i]);
      assert text[start..i] + [text[i]] == text[start..i + 1];
      FollowIdOf(root, text[start..i + 1]);
      MatchesComplete(root, text, start, c, i + 1);
      var head: seq<(int, int)> := if c.tokenId >= 0 then [(c.tokenId as int, i - start + 1)] else [];
      var tail := MatchesFrom(c, text, i + 1, i + 1 - start);
      assert ms == head + tail;
      forall l | i - start < l <= |text| - start && PrefixId(root, text, start, l) >= 0
        ensures (PrefixId(root, text, start, l), l) in ms
      {
        if l == i - start + 1 {
          assert text[start..start + l] == text[start..i + 1];
          assert (PrefixId(root, text, start, l), l) in head;
        } else {
          assert (PrefixId(root, text, start, l), l) in tail;
        }
      }
    }
  }

  /** The id of the token spelled by the `len` bytes of `text` from `start`, or -1. */
  function PrefixId(root: TrieNode, text: Str, start: nat, len: nat): int
  {
    if start + len <= |text| then IdOf(root, text[start..start + len]) else -1
  }

  /** The result `longest_prefix` reports: the last pair `all_prefixes` reports, or (-1, 0). */
  function LastOr(ms: seq<(int, int)>): (int, int)
  {
    if ms == [] then (-1, 0) else ms[|ms| - 1]
  }

  /** The last reported pair is the longest token that is a prefix of `text[start..]`. */
  lemma LastIsLongest(root: TrieNode, text: Str, start: nat)
    ensures LastOr(Matches(root, text, start)).1 == 0 ==> LastOr(Matches(root, text, start)).0 == -1
    ensures LastOr(Matches(root, text, start)).1 == 0 ==>
      forall l :: 1 <= l <= |text| - start ==> PrefixId(root, text, start, l) < 0
    ensures LastOr(Matches(root, text, start)).1 != 0 ==>
      var (id, len) := LastOr(Matches(root, text, start));
      && 1 <= len <= |text| - start
      && IdOf(root, text[start..start + len]) == id >= 0
      && forall l :: len < l <= |text| - start ==> PrefixId(root, text, start, l) < 0
  {
    var ms := Matches(root, text, start);
    if start <= |text| {
      assert text[start..start] == [];
      MatchesSound(root, text, start, root, start);
      MatchesSorted(root, text, start, 0);
      MatchesComplete(root, text, start, root, start);
      assert ms == MatchesFrom(root, text, start, start - start);
      if ms != [] {
        var last := ms[|ms| - 1];
        assert last in ms;
        forall k | 0 <= k < |ms| ensures ms[k].1 <= last.1 {
          if k < |ms| - 1 {
            assert ms[k].1 < ms[|ms| - 1].1;
          }
        }
        assert forall x :: x in ms ==> x.1 <= last.1;
      }
    }
  }

  // ---- binary layout: size_t and int in little-endian byte order ----

  /** The `width` low-order bytes of `n`, least significant first. */
  function LittleEndian(n: nat, width: nat): (bs: Str)
    ensures |bs| == width
  {
    if width == 0 then [] else [ByteOf(n % 256)] + LittleEndian(n / 256, width - 1)
  }

  function FromLittleEndian(bs: Str): nat
  {
    if bs == [] then 0 else Code(bs[0]) + 256 * FromLittleEndian(bs[1..])
  }

  function Pow256(width: nat): nat
  {
    if width == 0 then 1 else 256 * Pow256(width - 1)
  }

  lemma {:induction false} LittleEndianRoundTrip(n: nat, width: nat)
    requires n < Pow256(width)
    ensures FromLittleEndian(LittleEndian(n, width)) == n
    decreases width
  {
    if width > 0 {
      assert n / 256 < Pow256(width - 1);
      LittleEndianRoundTrip(n / 256, width - 1);
      assert LittleEndian(n, width)[1..] == LittleEndian(n / 256, width - 1);
    }
  }

  /** `memcpy` of a `size_t`. */
  function U64Bytes(n: u64): (bs: Str)
    ensures |bs| == 8
  {
    LittleEndian(n, 8)
  }

  /** `memcpy` of an `int`: two's complement in four bytes. */
  function I32Bytes(x: i32): (bs: Str)
    ensures |bs| == 4
  {
    LittleEndian(if x < 0 then x + TwoTo32 else x, 4)
  }

  function U64Of(bs: Str): u64
    requires |bs| == 8
  {
    LittleEndianBound(bs);
    FromLittleEndian(bs)
  }

  function I32Of(bs: Str): i32
    requires |bs| == 4
  {
    LittleEndianBound(bs);
    var v := FromLittleEndian(bs);
    if v >= 0x8000_0000 then v - TwoTo32 else v
  }

  /** The `width` bytes of `buf` from `pos` on, read least significant first (the `memcpy` out of the buffer). */
  function LittleEndianAt(buf: Str, pos: nat, width: nat): nat
    requires pos + width <= |buf|
    decreases width
  {
    if width == 0 then 0 else Code(buf[pos]) + 256 * LittleEndianAt(buf, pos + 1, width - 1)
  }

  lemma {:induction false} LittleEndianAtSlice(buf: Str, pos: nat, width: nat)
    requires pos + width <= |buf|
    ensures LittleEndianAt(buf, pos, width) == FromLittleEndian(buf[pos..pos + width])
    decreases width
  {
    if width > 0 {
      LittleEndianAtSlice(buf, pos + 1, width - 1);
      assert buf[pos..pos + width][1..] == buf[pos + 1..pos + width];
    }
  }

  /** The `size_t` stored at `pos`. */
  function U64At(buf: Str, pos: nat): u64
    requires pos + 8 <= |buf|
  {
    AtIsOf(buf, pos, 8);
    LittleEndianAt(buf, pos, 8)
  }

  /** The `int` stored at `pos`. */
  function I32At(buf: Str, pos: nat): i32
    requires pos + 4 <= |buf|
  {
    AtIsOf(buf, pos, 4);
    var v := LittleEndianAt(buf, pos, 4);
    if v >= 0x8000_0000 then v - TwoTo32 else v
  }

  lemma AtIsOf(buf: Str, pos: nat, width: nat)
    requires pos + width <= |buf|
    ensures LittleEndianAt(buf, pos, width) < Pow256(width)
    ensures LittleEndianAt(buf, pos, width) == FromLittleEndian(buf[pos..pos + width])
  {
    LittleEndianAtSlice(buf, pos, width);
    LittleEndianBound(buf[pos..pos + width]);
    assert Pow256(8) == TwoTo64 && Pow256(4) == TwoTo32;
  }

  /** `buf` holds the bytes `rec` from `pos` on. */
  predicate HoldsAt(buf: Str, pos: nat, rec: Str)
    decreases |rec|
  {
    pos + |rec| <= |buf| && (rec == [] || (buf[pos] == rec[0] && HoldsAt(buf, pos + 1, rec[1..])))
  }

  lemma {:induction false} HoldsAtSlice(buf: Str, pos: nat, rec: Str)
    ensures HoldsAt(buf, pos, rec) <==> pos + |rec| <= |buf| && buf[pos..pos + |rec|] == rec
    decreases |rec|
  {
    if rec != [] && pos + |rec| <= |buf| {
      HoldsAtSlice(buf, pos + 1, rec[1..]);
      assert buf[pos..pos + |rec|] == [buf[pos]] + buf[pos + 1..pos + |rec|];
    }
  }

  lemma {:induction false} HoldsAtSplit(buf: Str, pos: nat, a: Str, b: Str)
    ensures HoldsAt(buf, pos, a + b) <==> HoldsAt(buf, pos, a) && HoldsAt(buf, pos + |a|, b)
    decreases |a|
  {
    if a == [] {
      assert a + b == b;
    } else {
      assert (a + b)[0] == a[0] && (a + b)[1..] == a[1..] + b;
      HoldsAtSplit(buf, pos + 1, a[1..], b);
    }
  }

  /** Reading a `size_t` or an `int` back from where its bytes were copied. */
  lemma U64AtRoundTrip(buf: Str, pos: nat, n: u64)
    requires HoldsAt(buf, pos, U64Bytes(n))
    ensures U64At(buf, pos) == n
  {
    HoldsAtSlice(buf, pos, U64Bytes(n));
    AtIsOf(buf, pos, 8);
    U64RoundTrip(n);
  }

  lemma I32AtRoundTrip(buf: Str, pos: nat, x: i32)
    requires HoldsAt(buf, pos, I32Bytes(x))
    ensures I32At(buf, pos) == x
  {
    HoldsAtSlice(buf, pos, I32Bytes(x));
    LittleEndianAtSlice(buf, pos, 4);
    I32RoundTrip(x);
  }

  lemma {:induction false} LittleEndianBound(bs: Str)
    ensures FromLittleEndian(bs) < Pow256(|bs|)
    decreases |bs|
  {
    if bs != [] {
      LittleEndianBound(bs[1..]);
    }
  }

  lemma U64RoundTrip(n: u64)
    ensures U64Of(U64Bytes(n)) == n
  {
    assert Pow256(8) == TwoTo64;
    LittleEndianRoundTrip(n, 8);
  }

  lemma I32RoundTrip(x: i32)
    ensures I32Of(I32Bytes(x)) == x
  {
    assert Pow256(4) == TwoTo32;
    LittleEndianRoundTrip(if x < 0 then x + TwoTo32 else x, 4);
  }

  /** The children of a node, visited in increasing byte order from byte `c`. */
  function ChildRecords(n: TrieNode, c: nat): Str
    requires c <= 256
    decreases n, 256 - c
  {
    if c == 256 then []
    else
      (if ByteOf(c) in n.children then [ByteOf(c)] + NodeRecord(n.children[ByteOf(c)]) else [])
      + ChildRecords(n, c + 1)
  }

  /** `serialize_node`: id, child count, then each child's byte followed by its own record. */
  function NodeRecord(n: TrieNode): Str
    decreases n, 257
  {
    ChildCountBound(n.children);
    I32Bytes(n.tokenId) + U64Bytes(|n.children|) + ChildRecords(n, 0)
  }

  /** `serialize`: the token count header, then the root's record. */
  function Serialized(size: u64, root: TrieNode): Str
  {
    U64Bytes(size) + NodeRecord(root)
  }

  /** The length of a node record, counted without building it. */
  function NodeSize(n: TrieNode): nat
    decreases n, 257
  {
    12 + ChildrenSize(n, 0)
  }

  function ChildrenSize(n: TrieNode, c: nat): nat
    requires c <= 256
    decreases n, 256 - c
  {
    if c == 256 then 0
    else (if ByteOf(c) in n.children then 1 + NodeSize(n.children[ByteOf(c)]) else 0) + ChildrenSize(n, c + 1)
  }

  lemma {:induction false} NodeSizeIs(n: TrieNode)
    ensures |NodeRecord(n)| == NodeSize(n)
    decreases n, 257
  {
    ChildrenSizeIs(n, 0);
  }

  lemma {:induction false} ChildrenSizeIs(n: TrieNode, c: nat)
    requires c <= 256
    ensures |ChildRecords(n, c)| == ChildrenSize(n, c)
    decreases n, 256 - c
  {
    if c < 256 {
      if ByteOf(c) in n.children {
        NodeSizeIs(n.children[ByteOf(c)]);
      }
      ChildrenSizeIs(n, c + 1);
    }
  }

  /** `deserialize_node` reading at `pos`: the node and the position after it, or the exception. */
  function ReadNode(buf: Str, pos: nat): (r: Result<(TrieNode, nat)>)
    ensures r.Ok? ==> pos + 12 <= r.value.1 <= |buf|
    decreases |buf| - pos, 1
  {
    if pos + 12 > |buf| then Err(NodeError)
    else
      var id := I32At(buf, pos);
      var count := U64At(buf, pos + 4);
      match ReadChildren(buf, pos + 12, count, map[])
      case Err(e) => Err(e)
      case Ok((children, p)) => Ok((TrieNode(children, id), p))
  }

  /** The child loop of `deserialize_node`: `count` records, each a byte and a node. */
  function ReadChildren(buf: Str, pos: nat, count: nat, acc: map<byte, TrieNode>): (r: Result<(map<byte, TrieNode>, nat)>)
    requires pos <= |buf|
    ensures r.Ok? ==> pos <= r.value.1 <= |buf|
    decreases |buf| - pos, 0, count
  {
    if count == 0 then Ok((acc, pos))
    else if pos + 1 > |buf| then Err(ChildError)
    else
      match ReadNode(buf, pos + 1)
      case Err(e) => Err(e)
      case Ok((child, p)) => ReadChildren(buf, p, count - 1, acc[buf[pos] := child])
  }

  /** The children with byte value below `c`: what the child loop has read after bytes `0..c-1`. */
  function Below(ch: map<byte, TrieNode>, c: nat): map<byte, TrieNode>
  {
    map k | k in ch && Code(k) < c :: ch[k]
  }

  lemma BelowStep(ch: map<byte, TrieNode>, c: nat)
    requires c < 256
    ensures ByteOf(c) !in Below(ch, c)
    ensures ByteOf(c) in ch ==> Below(ch, c + 1) == Below(ch, c)[ByteOf(c) := ch[ByteOf(c)]]
    ensures ByteOf(c) in ch ==> |Below(ch, c + 1)| == |Below(ch, c)| + 1
    ensures ByteOf(c) !in ch ==> Below(ch, c + 1) == Below(ch, c)
  {
    var b := ByteOf(c);
    if b in ch {
      assert Below(ch, c + 1).Keys == Below(ch, c).Keys + {b};
    }
  }

  lemma BelowEnds(ch: map<byte, TrieNode>)
    ensures Below(ch, 0) == map[]
    ensures Below(ch, 256) == ch
  {
  }

  lemma {:induction false} BelowSize(ch: map<byte, TrieNode>, c: nat)
    requires c <= 256
    ensures |Below(ch, c)| <= c
    decreases c
  {
    if c == 0 {
      BelowEnds(ch);
    } else {
      BelowSize(ch, c - 1);
      BelowStep(ch, c - 1);
    }
  }

  lemma ChildCountBound(ch: map<byte, TrieNode>)
    ensures |ch| <= 256
  {
    BelowSize(ch, 256);
    BelowEnds(ch);
  }

  /** The three fields of a node record, as found in a buffer holding it at `pos`. */
  lemma RecordParts(buf: Str, pos: nat, n: TrieNode)
    requires HoldsAt(buf, pos, NodeRecord(n))
    ensures pos + 12 <= |buf| && |n.children| <= 256
    ensures I32At(buf, pos) == n.tokenId
    ensures U64At(buf, pos + 4) == |n.children|
    ensures HoldsAt(buf, pos + 12, ChildRecords(n, 0))
    ensures |NodeRecord(n)| == 12 + |ChildRecords(n, 0)|
  {
    ChildCountBound(n.children);
    var id, count, rest := I32Bytes(n.tokenId), U64Bytes(|n.children|), ChildRecords(n, 0);
    assert NodeRecord(n) == (id + count) + rest;
    HoldsAtSplit(buf, pos, id + count, rest);
    HoldsAtSplit(buf, pos, id, count);
    HoldsAtSlice(buf, pos, NodeRecord(n));
    I32AtRoundTrip(buf, pos, n.tokenId);
    U64AtRoundTrip(buf, pos + 4, |n.children|);
  }

  /** The pieces of the child records from byte `c` on, when byte `c` has a child. */
  lemma ChildParts(buf: Str, pos: nat, n: TrieNode, c: nat)
    requires c < 256 && ByteOf(c) in n.children
    requires HoldsAt(buf, pos, ChildRecords(n, c))
    ensures |ChildRecords(n, c)| == 1 + |NodeRecord(n.children[ByteOf(c)])| + |ChildRecords(n, c + 1)|
    ensures pos < |buf| && buf[pos] == ByteOf(c)
    ensures HoldsAt(buf, pos + 1, NodeRecord(n.children[ByteOf(c)]))
    ensures HoldsAt(buf, pos + 1 + |NodeRecord(n.children[ByteOf(c)])|, ChildRecords(n, c + 1))
  {
    var b := ByteOf(c);
    var rec := NodeRecord(n.children[b]);
    var rest := ChildRecords(n, c + 1);
    assert ChildRecords(n, c) == [b] + (rec + rest);
    HoldsAtSplit(buf, pos, [b], rec + rest);
    HoldsAtSplit(buf, pos + 1, rec, rest);
  }

  /**
   * The buffer holds node `n` at `pos` field by field: the decoded id and count, then each
   * present child's byte and record in increasing byte order.
   */
  predicate NodeHeld(buf: Str, pos: nat, n: TrieNode)
    decreases n, 1
  {
    && pos + 12 <= |buf|
    && |n.children| <= 256
    && I32At(buf, pos) == n.tokenId
    && U64At(buf, pos + 4) == |n.children|
    && ChildrenHeld(buf, pos + 12, n, 0)
  }

  predicate ChildrenHeld(buf: Str, pos: nat, n: TrieNode, c: nat)
    requires c <= 256
    decreases n, 0, 256 - c
  {
    if c == 256 then pos <= |buf|
    else if ByteOf(c) in n.children then
      && pos < |buf| && buf[pos] == ByteOf(c)
      && NodeHeld(buf, pos + 1, n.children[ByteOf(c)])
      && ChildrenHeld(buf, pos + 1 + NodeSize(n.children[ByteOf(c)]), n, c + 1)
    else ChildrenHeld(buf, pos, n, c + 1)
  }

  /** A buffer holding the bytes of a node record holds the node field by field. */
  lemma {:induction false} NodeHeldOf(buf: Str, pos: nat, n: TrieNode)
    requires HoldsAt(buf, pos, NodeRecord(n))
    ensures NodeHeld(buf, pos, n)
    decreases n, 1
  {
    RecordParts(buf, pos, n);
    ChildrenHeldOf(buf, pos + 12, n, 0);
  }

  lemma {:induction false} ChildrenHeldOf(buf: Str, pos: nat, n: TrieNode, c: nat)
    requires c <= 256 && HoldsAt(buf, pos, ChildRecords(n, c))
    ensures ChildrenHeld(buf, pos, n, c)
    decreases n, 0, 256 - c
  {
    if c == 256 {
      assert pos <= |buf|;
    } else if ByteOf(c) in n.children {
      var child := n.children[ByteOf(c)];
      ChildParts(buf, pos, n, c);
      NodeSizeIs(child);
      NodeHeldOf(buf, pos + 1, child);
      ChildrenHeldOf(buf, pos + 1 + NodeSize(child), n, c + 1);
    } else {
      assert ChildRecords(n, c) == ChildRecords(n, c + 1);
      ChildrenHeldOf(buf, pos, n, c + 1);
    }
  }

  /** Reading a node back gives the node and stops right after its record. */
  lemma {:induction false} ReadNodeRecord(buf: Str, pos: nat, n: TrieNode)
    requires NodeHeld(buf, pos, n)
    ensures ReadNode(buf, pos) == Ok((n, pos + NodeSize(n)))
    decreases n, 1
  {
    ReadChildRecords(buf, pos + 12, n, 0);
    NodeFromParts(buf, pos, n, pos + NodeSize(n));
  }

  /** A node whose header fields sit at `pos` and whose child records read back up to `p`. */
  lemma NodeFromParts(buf: Str, pos: nat, n: TrieNode, p: nat)
    requires pos + 12 <= |buf| && |n.children| <= 256
    requires I32At(buf, pos) == n.tokenId
    requires U64At(buf, pos + 4) == |n.children|
    requires |Below(n.children, 0)| <= |n.children|
    requires ReadChildren(buf, pos + 12, |n.children| - |Below(n.children, 0)|, Below(n.children, 0)) == Ok((n.children, p))
    ensures ReadNode(buf, pos) == Ok((n, p))
  {
    BelowEnds(n.children);
    ReadNodeFields(buf, pos, n.tokenId, |n.children|, n.children, p);
  }

  /** `deserialize_node` once its header fields and its child loop are known. */
  lemma ReadNodeFields(buf: Str, pos: nat, id: i32, count: nat, ch: map<byte, TrieNode>, p: nat)
    requires pos + 12 <= |buf|
    requires I32At(buf, pos) == id && U64At(buf, pos + 4) == count
    requires ReadChildren(buf, pos + 12, count, map[]) == Ok((ch, p))
    ensures ReadNode(buf, pos) == Ok((TrieNode(ch, id), p))
  {
  }

  /** Fewer children lie below `c` than in the whole map, strictly fewer when byte `c` has one. */
  lemma {:induction false} BelowWithin(ch: map<byte, TrieNode>, c: nat)
    requires c <= 256
    ensures |Below(ch, c)| <= |ch|
    ensures c < 256 && ByteOf(c) in ch ==> |Below(ch, c)| < |ch|
    decreases 256 - c
  {
    if c == 256 {
      BelowEnds(ch);
    } else {
      BelowWithin(ch, c + 1);
      BelowStep(ch, c);
    }
  }

  /** One turn of the child loop that reads a node successfully. */
  lemma ReadChildrenStep(buf: Str, pos: nat, count: nat, acc: map<byte, TrieNode>, child: TrieNode, p: nat)
    requires pos < |buf| && count > 0
    requires ReadNode(buf, pos + 1) == Ok((child, p))
    ensures ReadChildren(buf, pos, count, acc) == ReadChildren(buf, p, count - 1, acc[buf[pos] := child])
  {
  }

  lemma {:induction false} ReadChildRecords(buf: Str, pos: nat, n: TrieNode, c: nat)
    requires c <= 256 && ChildrenHeld(buf, pos, n, c)
    ensures pos + ChildrenSize(n, c) <= |buf|
    ensures |Below(n.children, c)| <= |n.children|
    ensures ReadChildren(buf, pos, |n.children| - |Below(n.children, c)|, Below(n.children, c))
            == Ok((n.children, pos + ChildrenSize(n, c)))
    decreases n, 0, 256 - c, 1
  {
    if c == 256 {
      BelowEnds(n.children);
    } else if ByteOf(c) in n.children {
      ReadPresentChild(buf, pos, n, c);
    } else {
      ReadChildRecords(buf, pos, n, c + 1);
      BelowStep(n.children, c);
    }
  }

  /** `ReadChildRecords` when byte `c` has a child: read the child, then the records after it. */
  lemma {:induction false} ReadPresentChild(buf: Str, pos: nat, n: TrieNode, c: nat)
    requires c < 256 && ByteOf(c) in n.children && ChildrenHeld(buf, pos, n, c)
    ensures pos + ChildrenSize(n, c) <= |buf|
    ensures |Below(n.children, c)| <= |n.children|
    ensures ReadChildren(buf, pos, |n.children| - |Below(n.children, c)|, Below(n.children, c))
            == Ok((n.children, pos + ChildrenSize(n, c)))
    decreases n, 0, 256 - c, 0
  {
    var child := n.children[ByteOf(c)];
    var p := pos + 1 + NodeSize(child);
    ReadNodeRecord(buf, pos + 1, child);
    ReadChildRecords(buf, p, n, c + 1);
    PresentJoin(buf, pos, n.children, c, child, p, p + ChildrenSize(n, c + 1));
  }

  /** The child loop from byte `c`, when that byte has a child read back as `child` ending at `p`. */
  lemma PresentJoin(buf: Str, pos: nat, ch: map<byte, TrieNode>, c: nat, child: TrieNode, p: nat, q: nat)
    requires c < 256 && ByteOf(c) in ch && ch[ByteOf(c)] == child
    requires pos < |buf| && buf[pos] == ByteOf(c)
    requires ReadNode(buf, pos + 1) == Ok((child, p))
    requires |Below(ch, c + 1)| <= |ch|
    requires ReadChildren(buf, p, |ch| - |Below(ch, c + 1)|, Below(ch, c + 1)) == Ok((ch, q))
    ensures |Below(ch, c)| < |ch|
    ensures ReadChildren(buf, pos, |ch| - |Below(ch, c)|, Below(ch, c)) == Ok((ch, q))
  {
    BelowStep(ch, c);
    BelowWithin(ch, c);
    ReadChildrenStep(buf, pos, |ch| - |Below(ch, c)|, Below(ch, c), child, p);
  }

  /** The trie object: the root node and the `size_` counter (a `size_t`, so it wraps). */
  class Trie {
    var root: TrieNode
    var size: u64

    constructor ()
      ensures root == EmptyNode && size == 0
    {
      root, size := EmptyNode, 0;
    }

    /**
     * `insert`: throws on an empty key; otherwise stores `id` at the key's end node, counting
     * the key when that node had id -1 (a missing path counts, as its new node starts at -1).
     */
    method Insert(key: Str, id: i32) returns (r: Result<()>)
      modifies this
      ensures key == [] ==> r == Err(EmptyKeyError) && root == old(root) && size == old(size)
      ensures key != [] ==> r == Ok(()) && root == InsertNode(old(root), key, id)
      ensures key != [] ==> size == (if IdOf(old(root), key) == -1 then (old(size) + 1) % TwoTo64 else old(size))
    {
      if key == [] {
        return Err(EmptyKeyError);
      }
      FollowIdOf(root, key);
      var previous := GetId(key);
      root := InsertNode(root, key, id);
      if previous == -1 {
        size := (size + 1) % TwoTo64;
      }
      r := Ok(());
    }

    /** `get_id`: walks the path; -1 when it breaks, else the end node's id (possibly -1). */
    method GetId(key: Str) returns (id: int)
      ensures id == IdOf(root, key)
    {
      var current := root;
      var i := 0;
      while i < |key|
        invariant 0 <= i <= |key|
        invariant IdOf(root, key) == IdOf(current, key[i..])
      {
        if key[i] !in current.children {
          return -1;
        }
        assert key[i..][1..] == key[i + 1..];
        current := current.children[key[i]];
        i := i + 1;
      }
      return current.tokenId;
    }

    /** `contains`: the path exists and ends at a token end. */
    method ContainsKey(key: Str) returns (found: bool)
      ensures found <==> Contains(root, key)
    {
      var current := root;
      var i := 0;
      while i < |key|
        invariant 0 <= i <= |key|
        invariant IdOf(root, key) == IdOf(current, key[i..])
      {
        if key[i] !in current.children {
          return false;
        }
        assert key[i..][1..] == key[i + 1..];
        current := current.children[key[i]];
        i := i + 1;
      }
      return current.tokenId >= 0;
    }

    /** `all_prefixes`: every token that is a prefix of `text[start..]`, by increasing length. */
    method AllPrefixes(text: Str, start: nat) returns (matches: seq<(int, int)>)
      ensures matches == Matches(root, text, start)
    {
      matches := [];
      var current := root;
      var i := start;
      while i < |text|
        invariant start <= i
        invariant Matches(root, text, start) == matches + MatchesFrom(current, text, i, i - start)
        decreases |text| - i
      {
        if text[i] !in current.children {
          break;
        }
        current := current.children[text[i]];
        if current.tokenId >= 0 {
          matches := matches + [(current.tokenId as int, i - start + 1)];
        }
        i := i + 1;
      }
      assert matches + [] == matches;
    }

    /** `longest_prefix`: the id and length of the longest token that prefixes `text[start..]`. */
    method LongestPrefix(text: Str, start: nat) returns (bestId: int, bestLen: int)
      ensures (bestId, bestLen) == LastOr(Matches(root, text, start))
      ensures bestLen == 0 ==> bestId == -1
      ensures bestLen == 0 ==> forall l :: 1 <= l <= |text| - start ==> PrefixId(root, text, start, l) < 0
      ensures bestLen != 0 ==> 1 <= bestLen <= |text| - start
      ensures bestLen != 0 ==> Contains(root, text[start..start + bestLen]) && IdOf(root, text[start..start + bestLen]) == bestId
      ensures bestLen != 0 ==> forall l :: bestLen < l <= |text| - start ==> PrefixId(root, text, start, l) < 0
    {
      ghost var seen: seq<(int, int)> := [];
      bestId, bestLen := -1, 0;
      var current := root;
      var i := start;
      while i < |text|
        invariant start <= i
        invariant Matches(root, text, start) == seen + MatchesFrom(current, text, i, i - start)
        invariant (bestId, bestLen) == LastOr(seen)
        decreases |text| - i
      {
        if text[i] !in current.children {
          break;
        }
        current := current.children[text[i]];
        if current.tokenId >= 0 {
          bestId, bestLen := current.tokenId as int, i - start + 1;
          seen := seen + [(bestId, bestLen)];
        }
        i := i + 1;
      }
      assert seen + [] == seen;
      LastIsLongest(root, text, start);
    }

    /** `clear`. */
    method Clear()
      modifies this
      ensures root == EmptyNode && size == 0
    {
      root, size := EmptyNode, 0;
    }

    /** `serialize`. Children are written in increasing byte order (the source's map order is unspecified). */
    method Serialize() returns (buffer: Str)
      ensures buffer == Serialized(size, root)
    {
      buffer := U64Bytes(size) + NodeRecord(root);
    }

    /**
     * `deserialize`: clears, throws on a buffer shorter than a `size_t`, takes `size_` from the
     * header, then reads the root record. When the record is malformed the exception leaves the
     * header's count in `size_` and the cleared (empty) root.
     */
    method Deserialize(buffer: Str) returns (r: Result<()>)
      modifies this
      ensures |buffer| < 8 ==> r == Err(HeaderError) && root == EmptyNode && size == 0
      ensures |buffer| >= 8 ==> size == U64At(buffer, 0)
      ensures |buffer| >= 8 ==> (match ReadNode(buffer, 8)
        case Err(e) => r == Err(e) && root == EmptyNode
        case Ok((node, _)) => r == Ok(()) && root == node)
    {
      Clear();
      if |buffer| < 8 {
        return Err(HeaderError);
      }
      size := U64At(buffer, 0);
      match ReadNode(buffer, 8)
      case Err(e) =>
        return Err(e);
      case Ok((node, _)) =>
        root := node;
        r := Ok(());
    }
  }

  /** Deserialising what `serialize` wrote restores the same tree and the same count. */
  lemma SerializeRoundTrip(size: u64, root: TrieNode)
    ensures var buf := Serialized(size, root);
      && |buf| >= 8 && U64At(buf, 0) == size
      && ReadNode(buf, 8) == Ok((root, |buf|))
  {
    var buf := Serialized(size, root);
    HoldsAtSlice(buf, 0, buf);
    HoldsAtSplit(buf, 0, U64Bytes(size), NodeRecord(root));
    U64AtRoundTrip(buf, 0, size);
    NodeHeldOf(buf, 8, root);
    NodeSizeIs(root);
    ReadNodeRecord(buf, 8, root);
  }
}
