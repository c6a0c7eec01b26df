/**
 The two list classes nested in the cache: a linked list with a hash index of its nodes. A node reference plays
 the part of the list iterator that the index stores. Nodes are immutable: assigning through an iterator installs
 a fresh node at the same position, in the list and in the index.
 */
module ArcLists {
  import opened ArcSpec

  // ----- a list and its index --------------------------------------------------------------------------------

  /** The index maps every listed key to the node at its position, and nothing else. */
  ghost predicate Indexed<K, N>(keys: seq<K>, nodes: seq<N>, index: map<K, N>) {
    && |keys| == |nodes|
    && Distinct(nodes)
    && (forall i :: 0 <= i < |keys| ==> keys[i] in index && index[keys[i]] == nodes[i])
    && (forall k :: k in index ==> k in keys)
  }

  lemma IndexedLookup<K, N>(keys: seq<K>, nodes: seq<N>, index: map<K, N>, k: K)
    requires Indexed(keys, nodes, index)
    ensures Distinct(keys)
    ensures k in index <==> k in keys
    ensures k in index ==> index[k] == nodes[Position(keys, k)]
  {
    forall i, j | 0 <= i < j < |keys| ensures keys[i] != keys[j] {
      assert index[keys[i]] == nodes[i] && index[keys[j]] == nodes[j];
    }
  }

  lemma IndexedPush<K, N>(keys: seq<K>, nodes: seq<N>, index: map<K, N>, k: K, n: N)
    requires Indexed(keys, nodes, index) && k !in keys && n !in nodes
    ensures Indexed([k] + keys, [n] + nodes, index[k := n])
  {
  }

  lemma IndexedErase<K, N>(keys: seq<K>, nodes: seq<N>, index: map<K, N>, i: nat)
    requires Indexed(keys, nodes, index) && i < |keys|
    ensures Indexed(EraseAt(keys, i), EraseAt(nodes, i), index - {keys[i]})
    ensures nodes[i] !in EraseAt(nodes, i)
  {
    IndexedLookup(keys, nodes, index, keys[i]);
    var keys', index' := EraseAt(keys, i), index - {keys[i]};
    forall k | k in index' ensures k in keys' {
      var j := Position(keys, k);
      assert k == if j < i then keys'[j] else keys'[j - 1];
    }
  }

  lemma IndexedMove<K, N>(keys: seq<K>, nodes: seq<N>, index: map<K, N>, i: nat)
    requires Indexed(keys, nodes, index) && i < |keys|
    ensures Indexed([keys[i]] + EraseAt(keys, i), [nodes[i]] + EraseAt(nodes, i), index)
  {
    IndexedErase(keys, nodes, index, i);
    IndexedLookup(keys, nodes, index, keys[i]);
    IndexedPush(EraseAt(keys, i), EraseAt(nodes, i), index - {keys[i]}, keys[i], nodes[i]);
    assert (index - {keys[i]})[keys[i] := nodes[i]] == index;
  }

  lemma IndexedAssign<K, N>(keys: seq<K>, nodes: seq<N>, index: map<K, N>, i: nat, n: N)
    requires Indexed(keys, nodes, index) && i < |keys| && n !in nodes
    ensures Indexed(keys, nodes[i := n], index[keys[i] := n])
  {
    IndexedLookup(keys, nodes, index, keys[i]);
  }

  // ----- resident lists --------------------------------------------------------------------------------------

  class LruNode<K, V> {
    const key: K
    const value: V
    const size: nat

    constructor (key: K, value: V, size: nat)
      ensures this.key == key && this.value == value && this.size == size
    {
      this.key := key;
      this.value := value;
      this.size := size;
    }
  }

  ghost function NodeKeys<K, V>(nodes: seq<LruNode<K, V>>): (ks: seq<K>)
    ensures |ks| == |nodes| && forall i :: 0 <= i < |nodes| ==> ks[i] == nodes[i].key
  {
    seq(|nodes|, i requires 0 <= i < |nodes| => nodes[i].key)
  }

  /** The entries that a sequence of nodes holds. */
  ghost function Snapshot<K, V>(nodes: seq<LruNode<K, V>>): (s: seq<Entry<K, V>>)
    ensures |s| == |nodes| && Keys(s) == NodeKeys(nodes)
    ensures forall i :: 0 <= i < |s| ==> s[i] == Entry(nodes[i].key, nodes[i].value, nodes[i].size)
  {
    seq(|nodes|, i requires 0 <= i < |nodes| => Entry(nodes[i].key, nodes[i].value, nodes[i].size))
  }

  lemma SnapshotErase<K, V>(nodes: seq<LruNode<K, V>>, i: nat)
    requires i < |nodes|
    ensures Snapshot(EraseAt(nodes, i)) == EraseAt(Snapshot(nodes), i)
    ensures NodeKeys(EraseAt(nodes, i)) == EraseAt(NodeKeys(nodes), i)
  {
  }

  lemma SnapshotPush<K, V>(nodes: seq<LruNode<K, V>>, n: LruNode<K, V>)
    ensures Snapshot([n] + nodes) == [Entry(n.key, n.value, n.size)] + Snapshot(nodes)
    ensures NodeKeys([n] + nodes) == [n.key] + NodeKeys(nodes)
  {
  }

  class LruList<K(==), V> {
    var list: seq<LruNode<K, V>>
    var index: map<K, LruNode<K, V>>
    ghost var entries: seq<Entry<K, V>>

    ghost predicate Valid()
      reads this
    {
      Indexed(NodeKeys(list), list, index) && entries == Snapshot(list)
    }

    constructor ()
      ensures Valid() && entries == []
    {
      list := [];
      index := map[];
      entries := [];
    }

    method FindNode(key: K) returns (it: LruNode?<K, V>)
      requires Valid()
      ensures it == null <==> key !in Keys(entries)
      ensures it != null ==> it in list && it.key == key && Find(entries, key) == Entry(key, it.value, it.size)
    {
      IndexedLookup(NodeKeys(list), list, index, key);
      if key in index {
        it := index[key];
      } else {
        it := null;
      }
    }

    method Contains(key: K) returns (found: bool)
      requires Valid()
      ensures found <==> key in Keys(entries)
    {
      IndexedLookup(NodeKeys(list), list, index, key);
      found := key in index;
    }

    method PushFront(key: K, value: V, size: nat)
      requires Valid() && key !in Keys(entries)
      modifies this
      ensures Valid()
      ensures entries == [Entry(key, value, size)] + old(entries)
    {
      var node := new LruNode(key, value, size);
      IndexedPush(NodeKeys(list), list, index, key, node);
      SnapshotPush(list, node);
      list, index := [node] + list, index[key := node];
      entries := Snapshot(list);
    }

    /** Where a listed node stands: at the only position of its key. */
    ghost method Locate(it: LruNode<K, V>) returns (i: nat)
      requires Valid() && it in list
      ensures i < |list| && list[i] == it
      ensures it.key in Keys(entries) && i == Position(Keys(entries), it.key)
      ensures forall j :: 0 <= j < |list| && list[j] == it ==> j == i
    {
      i :| 0 <= i < |list| && list[i] == it;
      assert Keys(entries)[i] == it.key;
      IndexedLookup(NodeKeys(list), list, index, it.key);
    }

    /** Assign a new value and size to the entry a node holds. */
    method Assign(it: LruNode<K, V>, value: V, size: nat) returns (it': LruNode<K, V>)
      requires Valid() && it in list
      modifies this
      ensures Valid() && fresh(it') && it' in list
      ensures it'.key == it.key && it'.value == value && it'.size == size && it.key in Keys(old(entries))
      ensures entries == old(entries)[Position(Keys(old(entries)), it.key) := Entry(it.key, value, size)]
    {
      ghost var i := Locate(it);
      it' := new LruNode(it.key, value, size);
      IndexedAssign(NodeKeys(list), list, index, i, it');
      var k :| 0 <= k < |list| && list[k] == it;
      assert NodeKeys(list[k := it']) == NodeKeys(list);
      assert Snapshot(list[k := it']) == Snapshot(list)[k := Entry(it.key, value, size)];
      list, index := list[k := it'], index[it.key := it'];
      entries := Snapshot(list);
      assert list[k] == it';
    }

    method MoveToFront(it: LruNode<K, V>)
      requires Valid() && it in list
      modifies this
      ensures Valid() && it.key in Keys(old(entries))
      ensures entries == [Entry(it.key, it.value, it.size)] + Erase(old(entries), it.key)
    {
      ghost var i := Locate(it);
      IndexedMove(NodeKeys(list), list, index, i);
      SnapshotErase(list, i);
      SnapshotPush(EraseAt(list, i), it);
      var k :| 0 <= k < |list| && list[k] == it;
      list := [it] + EraseAt(list, k);
      entries := Snapshot(list);
    }

    method EraseNode(it: LruNode<K, V>)
      requires Valid() && it in list
      modifies this
      ensures Valid() && it.key in Keys(old(entries))
      ensures entries == Erase(old(entries), it.key)
    {
      ghost var i := Locate(it);
      IndexedErase(NodeKeys(list), list, index, i);
      SnapshotErase(list, i);
      var k :| 0 <= k < |list| && list[k] == it;
      list, index := EraseAt(list, k), index - {it.key};
      entries := Snapshot(list);
    }

    method PopBack() returns (e: Entry<K, V>)
      requires Valid() && entries != []
      modifies this
      ensures Valid()
      ensures e == old(entries)[|old(entries)| - 1] && entries == old(entries)[..|old(entries)| - 1]
    {
      IndexedErase(NodeKeys(list), list, index, |list| - 1);
      SnapshotErase(list, |list| - 1);
      assert EraseAt(list, |list| - 1) == list[..|list| - 1];
      var node := list[|list| - 1];
      e := Entry(node.key, node.value, node.size);
      index := index - {e.key};
      list := list[..|list| - 1];
      entries := Snapshot(list);
    }

    method IsEmpty() returns (empty: bool)
      requires Valid()
      ensures empty <==> entries == []
    {
      empty := list == [];
    }

    method Size() returns (n: nat)
      requires Valid()
      ensures n == |entries|
    {
      n := |list|;
    }

    method TotalSize() returns (total: nat)
      requires Valid()
      ensures total == Total(entries)
    {
      total := 0;
      for i := 0 to |list|
        invariant total == Total(entries[..i])
      {
        total := total + list[i].size;
        assert entries[..i + 1] == entries[..i] + [entries[i]];
        TotalConcat(entries[..i], [entries[i]]);
        assert Total([entries[i]]) == list[i].size + Total([entries[i]][1..]);
      }
      assert entries[..|list|] == entries;
    }

    method Clear()
      modifies this
      ensures Valid() && entries == []
    {
      list := [];
      index := map[];
      entries := [];
    }
  }

  // ----- ghost lists -----------------------------------------------------------------------------------------

  class GhostNode<K> {
    const key: K

    constructor (key: K)
      ensures this.key == key
    {
      this.key := key;
    }
  }

  ghost function GhostKeys<K>(nodes: seq<GhostNode<K>>): (ks: seq<K>)
    ensures |ks| == |nodes| && forall i :: 0 <= i < |nodes| ==> ks[i] == nodes[i].key
  {
    seq(|nodes|, i requires 0 <= i < |nodes| => nodes[i].key)
  }

  class GhostList<K(==)> {
    var list: seq<GhostNode<K>>
    var index: map<K, GhostNode<K>>
    ghost var keys: seq<K>

    ghost predicate Valid()
      reads this
    {
      Indexed(keys, list, index) && keys == GhostKeys(list)
    }

    constructor ()
      ensures Valid() && keys == []
    {
      list := [];
      index := map[];
      keys := [];
    }

    method Contains(key: K) returns (found: bool)
      requires Valid()
      ensures found <==> key in keys
    {
      IndexedLookup(GhostKeys(list), list, index, key);
      found := key in index;
    }

    method Size() returns (n: nat)
      requires Valid()
      ensures n == |keys|
    {
      n := |list|;
    }

    method PushFront(key: K)
      requires Valid() && key !in keys
      modifies this
      ensures Valid() && keys == [key] + old(keys)
    {
      var node := new GhostNode(key);
      IndexedPush(GhostKeys(list), list, index, key, node);
      assert GhostKeys([node] + list) == [key] + GhostKeys(list);
      list := [node] + list;
      index := index[key := node];
      keys := GhostKeys(list);
    }

    method PopBack() returns (key: K)
      requires Valid() && keys != []
      modifies this
      ensures Valid() && key == old(keys[|keys| - 1]) && keys == old(keys[..|keys| - 1])
    {
      IndexedErase(GhostKeys(list), list, index, |list| - 1);
      assert EraseAt(list, |list| - 1) == list[..|list| - 1];
      assert EraseAt(GhostKeys(list), |list| - 1) == GhostKeys(list[..|list| - 1]) == GhostKeys(list)[..|list| - 1];
      key := list[|list| - 1].key;
      index := index - {key};
      list := list[..|list| - 1];
      keys := GhostKeys(list);
    }

    method Erase(key: K)
      requires Valid()
      modifies this
      ensures Valid() && keys == EraseKey(old(keys), key)
    {
      IndexedLookup(GhostKeys(list), list, index, key);
      if key in index {
        var node := index[key];
        IndexedErase(GhostKeys(list), list, index, Position(GhostKeys(list), key));
        var k :| 0 <= k < |list| && list[k] == node;
        assert k == Position(GhostKeys(list), key);
        assert GhostKeys(EraseAt(list, k)) == EraseAt(GhostKeys(list), k);
        list := EraseAt(list, k);
        index := index - {key};
        keys := GhostKeys(list);
      }
    }

    method Clear()
      modifies this
      ensures Valid() && keys == []
    {
      list := [];
      index := map[];
      keys := [];
    }
  }
}
