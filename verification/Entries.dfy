/** Entries, bucket chains and the doubly linked order list. */
module Entries {
  import opened OrderedMap

  class Entry<K, V> {
    const key: K
    const value: V
    var next: Entry?<K, V>
    var before: Entry?<K, V>
    var after: Entry?<K, V>

    constructor (key: K, value: V)
      ensures this.key == key && this.value == value && next == null && before == null && after == null
    {
      this.key, this.value := key, value;
      next, before, after := null, null, null;
    }
  }

  /** The entry at a place, null outside. */
  ghost function At<K, V>(c: seq<Entry<K, V>>, i: int): Entry?<K, V> {
    if 0 <= i < |c| then c[i] else null
  }

  lemma AtDrop<K, V>(o: seq<Entry<K, V>>, i: int, j: int)
    requires 0 <= i < |o| && j >= -1
    ensures j < i ==> At(o[..i] + o[i + 1..], j) == At(o, j)
    ensures j >= i ==> At(o[..i] + o[i + 1..], j) == At(o, j + 1)
  {}

  /** c is the chain that starts at head. */
  ghost predicate Chained<K, V>(head: Entry?<K, V>, c: seq<Entry<K, V>>)
    reads (set e | e in c)`next
  {
    head == At(c, 0) && forall i {:trigger c[i].next} :: 0 <= i < |c| ==> c[i].next == At(c, i + 1)
  }

  /** o is the list from header to last, and the backward links mirror the forward ones. */
  ghost predicate Listed<K, V>(header: Entry?<K, V>, last: Entry?<K, V>, o: seq<Entry<K, V>>)
    reads (set e | e in o)`before, (set e | e in o)`after
  {
    && header == At(o, 0) && last == At(o, |o| - 1)
    && (forall i {:trigger o[i].after} :: 0 <= i < |o| ==> o[i].after == At(o, i + 1))
    && (forall i {:trigger o[i].before} :: 0 <= i < |o| ==> o[i].before == At(o, i - 1))
  }

  ghost predicate Distinct<K, V>(c: seq<Entry<K, V>>) {
    forall i, j :: 0 <= i < j < |c| ==> c[i].key != c[j].key
  }

  /** The place of a key, or the length if it is absent. */
  ghost function Seek<K, V>(c: seq<Entry<K, V>>, k: K): (i: nat)
    ensures i <= |c| && (i < |c| ==> c[i].key == k)
    ensures forall j :: 0 <= j < i ==> c[j].key != k
  {
    if c == [] then 0 else if c[0].key == k then 0 else 1 + Seek(c[1..], k)
  }

  lemma SeekIs<K, V>(c: seq<Entry<K, V>>, k: K, i: nat)
    requires i <= |c| && (i < |c| ==> c[i].key == k) && forall j :: 0 <= j < i ==> c[j].key != k
    ensures Seek(c, k) == i
  {}

  /** A new node takes the place of the one with its key, or goes to the end. */
  ghost function Place<K, V>(c: seq<Entry<K, V>>, e: Entry<K, V>): seq<Entry<K, V>> {
    var i := Seek(c, e.key);
    if i < |c| then c[i := e] else c + [e]
  }

  ghost function Drop<K, V>(c: seq<Entry<K, V>>, k: K): seq<Entry<K, V>> {
    var i := Seek(c, k);
    if i < |c| then c[..i] + c[i + 1..] else c
  }

  ghost function Pairs<K, V>(o: seq<Entry<K, V>>): (s: seq<(K, V)>)
    ensures |s| == |o| && forall i :: 0 <= i < |o| ==> s[i] == (o[i].key, o[i].value)
  {
    seq(|o|, i requires 0 <= i < |o| => (o[i].key, o[i].value))
  }

  lemma PlaceIsPut<K, V>(o: seq<Entry<K, V>>, e: Entry<K, V>)
    ensures Pairs(Place(o, e)) == Put(Pairs(o), e.key, e.value)
  {
    FindIsSeek(o, e.key);
  }

  lemma DropIsRemove<K, V>(o: seq<Entry<K, V>>, k: K)
    ensures Pairs(Drop(o, k)) == Remove(Pairs(o), k)
  {
    FindIsSeek(o, k);
    var i := Seek(o, k);
    if i < |o| {
      PairsConcat(o[..i], o[i + 1..]);
      assert Pairs(o[..i]) == Pairs(o)[..i] && Pairs(o[i + 1..]) == Pairs(o)[i + 1..];
    }
  }

  lemma PairsConcat<K, V>(a: seq<Entry<K, V>>, b: seq<Entry<K, V>>)
    ensures Pairs(a + b) == Pairs(a) + Pairs(b)
  {}

  lemma FindIsSeek<K, V>(o: seq<Entry<K, V>>, k: K)
    ensures Find(Pairs(o), k) == Seek(o, k)
  {
    var i := Find(Pairs(o), k);
    SeekIs(o, k, i);
  }

  // ----- a bucket chain

  /** Walk a chain to the node with the key. `previous` trails one behind. */
  method FindInChain<K(==), V>(head: Entry?<K, V>, key: K, ghost c: seq<Entry<K, V>>)
      returns (previous: Entry?<K, V>, current: Entry?<K, V>)
    requires Chained(head, c)
    ensures var i := Seek(c, key);
            previous == At(c, i - 1) && current == At(c, i)
  {
    previous, current := null, head;
    ghost var i := 0;
    while current != null
      invariant 0 <= i <= |c| && previous == At(c, i - 1) && current == At(c, i)
      invariant forall j :: 0 <= j < i ==> c[j].key != key
      decreases |c| - i
    {
      if current.key == key {
        SeekIs(c, key, i);
        return;
      }
      previous, current := current, current.next;
      i := i + 1;
    }
    SeekIs(c, key, i);
  }

  lemma OnlyAt<K, V>(c: seq<Entry<K, V>>, i: int)
    requires Distinct(c) && 0 <= i < |c|
    ensures forall j :: 0 <= j < |c| && j != i ==> c[j] != c[i]
  {
    forall j | 0 <= j < |c| && j != i ensures c[j] != c[i] { assert c[j].key != c[i].key; }
  }

  lemma DistinctNodes<K, V>(c: seq<Entry<K, V>>)
    requires Distinct(c)
    ensures forall i, j :: 0 <= i < |c| && 0 <= j < |c| && i != j ==> c[i] != c[j]
  {
    forall i, j | 0 <= i < |c| && 0 <= j < |c| && i != j ensures c[i] != c[j] {
      assert c[i].key != c[j].key;
    }
  }

  /** The chain part of `put`: relink so that the new node replaces the node with its key, or ends the chain. */
  method PutInChain<K(==), V>(table: array<Entry?<K, V>>, hash: int, newEntry: Entry<K, V>, ghost c: seq<Entry<K, V>>)
    requires 0 <= hash < table.Length && Chained(table[hash], c) && Distinct(c)
    requires newEntry !in c && newEntry.next == null
    modifies table, (set e | e in c)`next, newEntry`next
    ensures Chained(table[hash], Place(c, newEntry))
    ensures forall b :: 0 <= b < table.Length && b != hash ==> table[b] == old(table[b])
  {
    DistinctNodes(c);
    if table[hash] == null {
      table[hash] := newEntry;
    } else {
      var previous, current := FindInChain(table[hash], newEntry.key, c);
      ghost var i: int := Seek(c, newEntry.key);
      if current != null {
        newEntry.next := current.next;
        if previous == null {
          table[hash] := newEntry;
        } else {
          previous.next := newEntry;
        }
        ghost var p := c[i := newEntry];
        forall j | 0 <= j < |p| ensures p[j].next == At(p, j + 1) {
          assert old(c[j].next) == At(c, j + 1);
        }
        assert Chained(table[hash], p);
      } else {
        previous.next := newEntry;
      }
    }
  }

  /** The chain part of `remove`. */
  method UnlinkFromChain<K(==), V>(table: array<Entry?<K, V>>, hash: int, previous: Entry?<K, V>, current: Entry<K, V>,
                                   ghost c: seq<Entry<K, V>>, ghost i: int)
    requires 0 <= hash < table.Length && Chained(table[hash], c) && Distinct(c) && 0 <= i < |c| && current == c[i]
    requires previous == At(c, i - 1)
    modifies table, (set e | e in c)`next
    ensures Chained(table[hash], c[..i] + c[i + 1..])
    ensures forall b :: 0 <= b < table.Length && b != hash ==> table[b] == old(table[b])
  {
    DistinctNodes(c);
    assert c[i].next == At(c, i + 1);
    if previous == null {
      table[hash] := table[hash].next;
    } else {
      previous.next := current.next;
    }
    ChainBypassed(table[hash], c, i);
  }

  /** Links that go around the node at i form the chain without it. */
  lemma ChainBypassed<K, V>(head: Entry?<K, V>, c: seq<Entry<K, V>>, i: int)
    requires 0 <= i < |c|
    requires forall k {:trigger c[k].next} :: 0 <= k < |c| && k != i - 1 ==> c[k].next == At(c, k + 1)
    requires if i == 0 then head == At(c, 1) else head == c[0] && c[i - 1].next == At(c, i + 1)
    ensures Chained(head, c[..i] + c[i + 1..])
  {
    var d := c[..i] + c[i + 1..];
    AtDrop(c, i, 0);
    forall j | 0 <= j < |d| ensures d[j].next == At(d, j + 1) {
      AtDrop(c, i, j);
      AtDrop(c, i, j + 1);
    }
  }
}
