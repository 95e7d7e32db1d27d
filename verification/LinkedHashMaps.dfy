/** The linked hash map: every entry sits in a bucket chain and in a doubly linked insertion-order list. */
module LinkedHashMaps {
  import opened Entries
  import opened HashMaps
  import OrderedMap

  /** The order list and the chains hold the same nodes. */
  ghost predicate SameNodes<K, V>(hashCode: K -> int, chains: seq<seq<Entry<K, V>>>, o: seq<Entry<K, V>>)
    requires |chains| == CAPACITY
  {
    && (forall e :: e in o ==> 0 <= Bucket(hashCode, e.key) < CAPACITY && e in chains[Bucket(hashCode, e.key)])
    && (forall b, e :: 0 <= b < CAPACITY && e in chains[b] ==> e in o)
  }

  lemma SameNodesAfterPut<K, V>(hashCode: K -> int, chains: seq<seq<Entry<K, V>>>, o: seq<Entry<K, V>>, h: int,
                                e: Entry<K, V>)
    requires Bucketed(hashCode, chains) && Distinct(o) && SameNodes(hashCode, chains, o)
    requires 0 <= h < CAPACITY && Bucket(hashCode, e.key) == h
    ensures SameNodes(hashCode, chains[h := Place(chains[h], e)], Place(o, e)) && Distinct(Place(o, e))
  {
    PlaceMembers(chains[h], e);
    PlaceMembers(o, e);
  }

  lemma SameNodesAfterRemove<K, V>(hashCode: K -> int, chains: seq<seq<Entry<K, V>>>, o: seq<Entry<K, V>>, h: int, k: K)
    requires Bucketed(hashCode, chains) && Distinct(o) && SameNodes(hashCode, chains, o)
    requires 0 <= h < CAPACITY && Bucket(hashCode, k) == h
    ensures SameNodes(hashCode, chains[h := Drop(chains[h], k)], Drop(o, k)) && Distinct(Drop(o, k))
  {
    DropMembers(chains[h], k);
    DropMembers(o, k);
  }

  /** What a put leaves of the two structures, apart from the links. */
  lemma AfterPut<K, V>(hashCode: K -> int, chains: seq<seq<Entry<K, V>>>, o: seq<Entry<K, V>>, h: int, e: Entry<K, V>)
    requires Bucketed(hashCode, chains) && Distinct(o) && SameNodes(hashCode, chains, o)
    requires 0 <= h < CAPACITY && Bucket(hashCode, e.key) == h
    ensures var chains' := chains[h := Place(chains[h], e)];
            && Bucketed(hashCode, chains') && SameNodes(hashCode, chains', Place(o, e)) && Distinct(Place(o, e))
            && Nodes(chains') <= Nodes(chains) + {e}
    ensures forall x :: x in o ==> x in Nodes(chains)
  {
    BucketedAfterPut(hashCode, chains, h, e);
    SameNodesAfterPut(hashCode, chains, o, h, e);
    PlaceMembers(chains[h], e);
  }

  lemma AfterRemove<K, V>(hashCode: K -> int, chains: seq<seq<Entry<K, V>>>, o: seq<Entry<K, V>>, h: int, k: K,
                          chains': seq<seq<Entry<K, V>>>, o': seq<Entry<K, V>>)
    requires Bucketed(hashCode, chains) && Distinct(o) && SameNodes(hashCode, chains, o)
    requires 0 <= h < CAPACITY && Bucket(hashCode, k) == h
    requires chains' == chains[h := Drop(chains[h], k)] && o' == Drop(o, k)
    ensures Bucketed(hashCode, chains') && SameNodes(hashCode, chains', o') && Distinct(o')
    ensures Nodes(chains') <= Nodes(chains)
    ensures forall x :: x in o ==> x in Nodes(chains)
  {
    BucketedAfterRemove(hashCode, chains, h, k);
    SameNodesAfterRemove(hashCode, chains, o, h, k);
    DropMembers(chains[h], k);
  }

  /** A key has the same node, or none, in its chain and in the order list. */
  lemma SameNodeOfKey<K, V>(hashCode: K -> int, chains: seq<seq<Entry<K, V>>>, o: seq<Entry<K, V>>, k: K)
    requires Bucketed(hashCode, chains) && Distinct(o) && SameNodes(hashCode, chains, o)
    requires 0 <= Bucket(hashCode, k) < CAPACITY
    ensures var c := chains[Bucket(hashCode, k)]; var i, j := Seek(c, k), Seek(o, k);
            (i < |c| <==> j < |o|) && (i < |c| ==> c[i] == o[j])
  {
    var c := chains[Bucket(hashCode, k)];
    var i, j := Seek(c, k), Seek(o, k);
    if i < |c| {
      assert c[i] in c && c[i] in o;
      var x :| 0 <= x < |o| && o[x] == c[i];
      SeekIs(o, k, x) by { assert forall y :: 0 <= y < x ==> o[y].key != o[x].key; }
    }
    if j < |o| { assert o[j] in o && o[j] in c; }
  }

  class LinkedHashMapCustom<K(==, !new), V> {
    const hashCode: K -> int
    /** Java's null, which `get` returns for a missing key and which may also be a stored value. */
    const nil: V
    const table: array<Entry?<K, V>>
    var header: Entry?<K, V>
    var last: Entry?<K, V>
    ghost var chains: seq<seq<Entry<K, V>>>
    ghost var order: seq<Entry<K, V>>

    ghost predicate Valid()
      reads this, table, Nodes(chains)`next, (set e | e in order)`before, (set e | e in order)`after
    {
      && IsHash(hashCode) && Bucketed(hashCode, chains) && InTable(table, chains)
      && Listed(header, last, order) && Distinct(order) && SameNodes(hashCode, chains, order)
    }

    /** The abstract value: the pairs in list order. */
    ghost function Contents(): seq<(K, V)>
      reads this
    {
      Pairs(order)
    }

    constructor (hashCode: K -> int, nil: V)
      requires IsHash(hashCode)
      ensures Valid() && Contents() == [] && fresh(table) && Nodes(chains) == {} && order == []
    {
      this.hashCode, this.nil := hashCode, nil;
      table := new Entry?<K, V>[CAPACITY](i => null);
      header, last := null, null;
      chains := [[], [], [], []];
      order := [];
    }

    // ----- the order list

    method DeleteFirst()
      requires Listed(header, last, order) && Distinct(order)
      modifies this`header, this`last, this`order, (set e | e in order)`before
      ensures Listed(header, last, order)
      ensures order == if old(order) == [] then [] else old(order)[1..]
    {
      ghost var o := order;
      DistinctNodes(o);
      if header == last {
        assert |o| <= 1;
        header, last := null, null;
        order := [];
        return;
      } else {
        assert o[0].after == At(o, 1);
        assert |o| > 1;
        header := header.after;
        header.before := null;
      }
      order := o[1..];
      forall i | 0 <= i < |order|
        ensures order[i].after == At(order, i + 1)
        ensures order[i].before == At(order, i - 1)
      {
        assert order[i] == o[i + 1];
        assert old(o[i + 1].before) == At(o, i) && old(o[i + 1].after) == At(o, i + 2);
      }
    }

    method InsertFirst(newEntry: Entry<K, V>)
      requires Listed(header, last, order) && Distinct(order)
      requires newEntry !in order && newEntry.before == null && newEntry.after == null
      modifies this`header, this`last, this`order, (set e | e in order)`before, newEntry`after
      ensures Listed(header, last, order) && order == [newEntry] + old(order)
    {
      ghost var o := order;
      DistinctNodes(o);
      if header == null {
        header, last := newEntry, newEntry;
      } else {
        newEntry.after := header;
        header.before := newEntry;
        header := newEntry;
      }
      order := [newEntry] + o;
      assert forall k :: 0 <= k < |o| ==> o[k] != newEntry;
      Prepended(last, o, newEntry);
    }

    method InsertLast(newEntry: Entry<K, V>)
      requires Listed(header, last, order) && Distinct(order)
      requires newEntry !in order && newEntry.before == null && newEntry.after == null
      modifies this`header, this`last, this`order, (set e | e in order)`after, newEntry`before
      ensures Listed(header, last, order) && order == old(order) + [newEntry]
    {
      ghost var o := order;
      DistinctNodes(o);
      if header == null {
        header, last := newEntry, newEntry;
      } else {
        last.after := newEntry;
        newEntry.before := last;
        last := newEntry;
      }
      order := o + [newEntry];
      forall i | 0 <= i < |order|
        ensures order[i].after == At(order, i + 1)
        ensures order[i].before == At(order, i - 1)
      {
        if i < |o| {
          assert order[i] == o[i];
          assert old(o[i].after) == At(o, i + 1) && old(o[i].before) == At(o, i - 1);
        }
      }
    }

    method DeleteLast()
      requires Listed(header, last, order) && Distinct(order)
      modifies this`header, this`last, this`order, (set e | e in order)`after
      ensures Listed(header, last, order)
      ensures order == if old(order) == [] then [] else old(order)[..|old(order)| - 1]
    {
      ghost var o := order;
      DistinctNodes(o);
      if header == last {
        assert |o| <= 1;
        header, last := null, null;
        order := [];
        return;
      } else {
        assert o[|o| - 1].before == At(o, |o| - 2);
        assert |o| > 1;
        last := last.before;
        last.after := null;
      }
      order := o[..|o| - 1];
      forall i | 0 <= i < |order|
        ensures order[i].after == At(order, i + 1)
        ensures order[i].before == At(order, i - 1)
      {
        assert order[i] == o[i];
        assert old(o[i].after) == At(o, i + 1) && old(o[i].before) == At(o, i - 1);
      }
    }

    /** The walk of `deleteSpecificEntry`: to the node with the key, or null at the end of the list. */
    method WalkTo(key: K) returns (current: Entry?<K, V>)
      requires Listed(header, last, order) && order != []
      ensures current == At(order, Seek(order, key))
    {
      current := header;
      ghost var i := 0;
      while current.key != key
        invariant 0 <= i < |order| && current == order[i]
        invariant forall j :: 0 <= j < i ==> order[j].key != key
        decreases |order| - i
      {
        assert current.after == At(order, i + 1);
        if current.after == null {
          SeekIs(order, key, |order|);
          return null;
        }
        current := current.after;
        i := i + 1;
      }
      SeekIs(order, key, i);
    }

    /** Take out the node with the key of `newEntry`, if there is one, and return the node before it.
        Called only when that node is neither first nor last. */
    method DeleteSpecificEntry(newEntry: Entry<K, V>) returns (beforeEntry: Entry?<K, V>)
      requires Listed(header, last, order) && Distinct(order) && order != []
      requires order[0].key != newEntry.key && order[|order| - 1].key != newEntry.key
      modifies this`order, (set e | e in order)`before, (set e | e in order)`after
      ensures Listed(header, last, order) && order == Drop(old(order), newEntry.key)
      ensures var i := Seek(old(order), newEntry.key);
              if i == |old(order)| then beforeEntry == null
              else 1 <= i < |old(order)| - 1 && beforeEntry == old(order)[i - 1]
    {
      ghost var i: int := Seek(order, newEntry.key);
      var current := WalkTo(newEntry.key);
      if current == null {
        return null;
      }
      assert current.before == At(order, i - 1);
      beforeEntry := current.before;
      Unlink(current, i);
    }

    method Unlink(current: Entry<K, V>, ghost i: int)
      requires Listed(header, last, order) && Distinct(order) && 1 <= i < |order| - 1 && current == order[i]
      modifies this`order, (set e | e in order)`before, (set e | e in order)`after
      ensures Listed(header, last, order) && order == old(order)[..i] + old(order)[i + 1..]
    {
      ghost var o := order;
      OnlyAt(o, i - 1);
      OnlyAt(o, i + 1);
      assert current.before == At(o, i - 1) && current.after == At(o, i + 1);
      current.before.after := current.after;
      current.after.before := current.before;
      order := o[..i] + o[i + 1..];
      Bypassed(header, last, o, i);
    }

    /** The walk from the header only finds the node it was given. */
    method InsertAfter(beforeEntry: Entry<K, V>, newEntry: Entry<K, V>, ghost i: int)
      requires Listed(header, last, order) && Distinct(order) && 0 <= i < |order| - 1 && beforeEntry == order[i]
      requires newEntry !in order
      modifies this`order, (set e | e in order)`before, (set e | e in order)`after, newEntry`before, newEntry`after
      ensures Listed(header, last, order) && order == old(order)[..i + 1] + [newEntry] + old(order)[i + 1..]
    {
      var current := header;
      ghost var k: int := 0;
      while current != beforeEntry
        invariant 0 <= k <= i && current == order[k]
        decreases i - k
      {
        assert current.after == At(order, k + 1);
        current := current.after;
        k := k + 1;
      }
      Link(beforeEntry, newEntry, i);
    }

    method Link(beforeEntry: Entry<K, V>, newEntry: Entry<K, V>, ghost i: int)
      requires Listed(header, last, order) && Distinct(order) && 0 <= i < |order| - 1 && beforeEntry == order[i]
      requires newEntry !in order
      modifies this`order, (set e | e in order)`before, (set e | e in order)`after, newEntry`before, newEntry`after
      ensures Listed(header, last, order) && order == old(order)[..i + 1] + [newEntry] + old(order)[i + 1..]
    {
      ghost var o := order;
      OnlyAt(o, i);
      OnlyAt(o, i + 1);
      assert beforeEntry.after == At(o, i + 1);
      newEntry.after := beforeEntry.after;
      beforeEntry.after.before := newEntry;
      newEntry.before := beforeEntry;
      beforeEntry.after := newEntry;
      assert forall k :: 0 <= k < |o| ==> o[k] != newEntry;
      assert forall k {:trigger o[k].after} :: 0 <= k < |o| && k != i ==> o[k].after == At(o, k + 1);
      assert forall k {:trigger o[k].before} :: 0 <= k < |o| && k != i + 1 ==> o[k].before == At(o, k - 1);
      order := o[..i + 1] + [newEntry] + o[i + 1..];
      Spliced(header, last, o, i, newEntry);
    }

    /** A new entry takes the place of the one with its key, or goes to the end. */
    method MaintainOrderAfterInsert(newEntry: Entry<K, V>)
      requires Listed(header, last, order) && Distinct(order)
      requires newEntry !in order && newEntry.before == null && newEntry.after == null
      modifies this`header, this`last, this`order, newEntry`before, newEntry`after
      modifies (set e | e in order)`before, (set e | e in order)`after
      ensures Listed(header, last, order) && order == Place(old(order), newEntry)
    {
      ghost var o := order;
      if header == null {
        header, last := newEntry, newEntry;
        order := [newEntry];
      } else if header.key == newEntry.key {
        SeekIs(o, newEntry.key, 0);
        ReplaceFirst(newEntry);
      } else if last.key == newEntry.key {
        SeekIs(o, newEntry.key, |o| - 1);
        ReplaceLast(newEntry);
      } else {
        ReplaceInside(newEntry);
      }
    }

    /** The key is at the front. */
    method ReplaceFirst(newEntry: Entry<K, V>)
      requires Listed(header, last, order) && Distinct(order) && order != []
      requires newEntry !in order && newEntry.before == null && newEntry.after == null
      modifies this`header, this`last, this`order, newEntry`after, (set e | e in order)`before
      ensures Listed(header, last, order) && order == old(order)[0 := newEntry]
    {
      DeleteFirst();
      InsertFirst(newEntry);
      assert order == old(order)[0 := newEntry];
    }

    /** The key is at the end. */
    method ReplaceLast(newEntry: Entry<K, V>)
      requires Listed(header, last, order) && Distinct(order) && order != []
      requires newEntry !in order && newEntry.before == null && newEntry.after == null
      modifies this`header, this`last, this`order, newEntry`before, (set e | e in order)`after
      ensures Listed(header, last, order) && order == old(order)[|old(order)| - 1 := newEntry]
    {
      DeleteLast();
      InsertLast(newEntry);
      assert order == old(order)[|old(order)| - 1 := newEntry];
    }

    /** The last case: the key is not at either end. */
    method ReplaceInside(newEntry: Entry<K, V>)
      requires Listed(header, last, order) && Distinct(order) && order != []
      requires order[0].key != newEntry.key && order[|order| - 1].key != newEntry.key
      requires newEntry !in order && newEntry.before == null && newEntry.after == null
      modifies this`header, this`last, this`order, newEntry`before, newEntry`after
      modifies (set e | e in order)`before, (set e | e in order)`after
      ensures Listed(header, last, order) && order == Place(old(order), newEntry)
    {
      ghost var o := order;
      ghost var i: int := Seek(o, newEntry.key);
      DropMembers(o, newEntry.key);
      assert newEntry !in Drop(o, newEntry.key);
      var beforeDeleteEntry := DeleteSpecificEntry(newEntry);
      assert newEntry.before == null && newEntry.after == null;
      if beforeDeleteEntry == null {
        InsertLast(newEntry);
      } else {
        assert order == o[..i] + o[i + 1..] && order[i - 1] == o[i - 1];
        InsertAfter(beforeDeleteEntry, newEntry, i - 1);
        DropThenInsert(o, i, newEntry);
      }
    }

    method MaintainOrderAfterDeletion(deleteEntry: Entry<K, V>)
      requires Listed(header, last, order) && Distinct(order) && deleteEntry in order
      modifies this`header, this`last, this`order, (set e | e in order)`before, (set e | e in order)`after
      ensures Listed(header, last, order) && order == Drop(old(order), deleteEntry.key)
    {
      ghost var o := order;
      if header.key == deleteEntry.key {
        DropFirst(o, deleteEntry.key);
        DeleteFirst();
      } else if last.key == deleteEntry.key {
        DropLast(o, deleteEntry.key);
        DeleteLast();
      } else {
        var beforeEntry := DeleteSpecificEntry(deleteEntry);
      }
    }

    // ----- the map

    method Put(newKey: Nullable<K>, data: V)
      requires Valid()
      modifies this, table, Nodes(chains)
      ensures Valid() && fresh(Nodes(chains) - old(Nodes(chains)))
      ensures Contents() == if newKey.Null? then old(Contents()) else OrderedMap.Put(old(Contents()), newKey.key, data)
    {
      if newKey.Null? {
        return;
      }
      BucketInRange(hashCode, newKey.key);
      var hash := Bucket(hashCode, newKey.key);
      var newEntry := new Entry(newKey.key, data);
      PlaceIsPut(order, newEntry);
      InsertNode(hash, newEntry);
    }

    /** The two relinkings of `put`, order list first. */
    method InsertNode(hash: int, newEntry: Entry<K, V>)
      requires Valid() && 0 <= hash < CAPACITY && Bucket(hashCode, newEntry.key) == hash
      requires newEntry !in Nodes(chains) && newEntry.next == null && newEntry.before == null && newEntry.after == null
      modifies this, table, Nodes(chains), newEntry
      ensures Valid() && order == Place(old(order), newEntry) && Nodes(chains) <= old(Nodes(chains)) + {newEntry}
    {
      ghost var o, cs := order, chains;
      assert forall e :: e in o ==> e in Nodes(cs);
      MaintainOrderAfterInsert(newEntry);
      assert InTable(table, cs);
      PutInTable(table, newEntry, hash, hashCode, cs);
      assert Listed(header, last, order);
      chains := cs[hash := Place(cs[hash], newEntry)];
      AfterPut(hashCode, cs, o, hash, newEntry);
    }

    method Get(key: K) returns (v: V)
      requires Valid()
      ensures var i := OrderedMap.Find(Contents(), key); v == if i < |Contents()| then Contents()[i].1 else nil
    {
      BucketInRange(hashCode, key);
      var hash := Bucket(hashCode, key);
      SameNodeOfKey(hashCode, chains, order, key);
      FindIsSeek(order, key);
      var previous, current := FindInChain(table[hash], key, chains[hash]);
      if current != null {
        return current.value;
      }
      return nil;
    }

    method Remove(deleteKey: K) returns (removed: bool)
      requires Valid()
      modifies this, table, Nodes(chains)
      ensures Valid() && Nodes(chains) <= old(Nodes(chains))
      ensures removed == (OrderedMap.Find(old(Contents()), deleteKey) < |old(Contents())|)
      ensures Contents() == OrderedMap.Remove(old(Contents()), deleteKey)
    {
      BucketInRange(hashCode, deleteKey);
      var hash := Bucket(hashCode, deleteKey);
      SameNodeOfKey(hashCode, chains, order, deleteKey);
      FindIsSeek(order, deleteKey);
      DropIsRemove(order, deleteKey);
      var previous, current := FindInChain(table[hash], deleteKey, chains[hash]);
      if current == null {
        return false;
      }
      RemoveNode(hash, previous, current);
      return true;
    }

    /** Take out the node that `remove` found, order list first. */
    method RemoveNode(hash: int, previous: Entry?<K, V>, current: Entry<K, V>)
      requires Valid() && 0 <= hash < CAPACITY && Bucket(hashCode, current.key) == hash && current in order
      requires var c := chains[hash]; var i := Seek(c, current.key);
               i < |c| && c[i] == current && previous == At(c, i - 1)
      modifies this, table, Nodes(chains)
      ensures Valid() && order == Drop(old(order), current.key) && Nodes(chains) <= old(Nodes(chains))
    {
      ghost var chains', order' := WithoutNode(hash, current.key);
      UnlinkTwice(hash, previous, current, chains', order');
      Settle(chains');
    }

    /** The chains and the order list without a key. */
    lemma WithoutNode(hash: int, key: K) returns (chains': seq<seq<Entry<K, V>>>, order': seq<Entry<K, V>>)
      requires Valid() && 0 <= hash < CAPACITY && Bucket(hashCode, key) == hash
      ensures chains' == chains[hash := Drop(chains[hash], key)] && order' == Drop(order, key)
      ensures Bucketed(hashCode, chains') && SameNodes(hashCode, chains', order') && Distinct(order')
      ensures Nodes(chains') <= Nodes(chains) && forall e :: e in order ==> e in Nodes(chains)
    {
      chains', order' := chains[hash := Drop(chains[hash], key)], Drop(order, key);
      AfterRemove(hashCode, chains, order, hash, key, chains', order');
    }

    /** The structures are consistent again with these chains. */
    ghost method Settle(chains': seq<seq<Entry<K, V>>>)
      requires IsHash(hashCode) && Bucketed(hashCode, chains') && InTable(table, chains')
      requires Listed(header, last, order) && Distinct(order) && SameNodes(hashCode, chains', order)
      modifies this`chains
      ensures Valid() && chains == chains'
    {
      chains := chains';
    }

    /** The two unlinkings of `remove`. */
    method UnlinkTwice(hash: int, previous: Entry?<K, V>, current: Entry<K, V>,
                       ghost chains': seq<seq<Entry<K, V>>>, ghost order': seq<Entry<K, V>>)
      requires Bucketed(hashCode, chains) && InTable(table, chains) && Listed(header, last, order) && Distinct(order)
      requires 0 <= hash < CAPACITY && current in order
      requires var c := chains[hash]; var i := Seek(c, current.key);
               i < |c| && c[i] == current && previous == At(c, i - 1)
      requires chains' == chains[hash := Drop(chains[hash], current.key)] && order' == Drop(order, current.key)
      requires forall e :: e in order ==> e in Nodes(chains)
      modifies this`header, this`last, this`order, table, Nodes(chains)
      ensures InTable(table, chains') && Listed(header, last, order) && order == order'
    {
      MaintainOrderAfterDeletion(current);
      UnlinkInTable(table, hash, previous, current, hashCode, chains);
    }

    /** The walk of `display`: the pairs in order. */
    method Display() returns (shown: seq<(K, V)>)
      requires Valid()
      ensures shown == Contents()
    {
      shown := [];
      var current := header;
      ghost var i := 0;
      while current != null
        invariant 0 <= i <= |order| && current == At(order, i) && shown == Contents()[..i]
        decreases |order| - i
      {
        shown := shown + [(current.key, current.value)];
        assert current.after == At(order, i + 1);
        current := current.after;
        i := i + 1;
      }
    }
  }

  /** Any sequence of puts and removes on a new map leaves exactly the abstract ordered map. */
  method Execute<K(==, !new), V>(hashCode: K -> int, nil: V, ops: seq<OrderedMap.Op<K, V>>)
      returns (m: LinkedHashMapCustom<K, V>)
    requires IsHash(hashCode)
    ensures m.Valid() && m.Contents() == OrderedMap.Run(ops)
    ensures OrderedMap.Explains(ops, m.Contents()) && OrderedMap.DistinctKeys(m.Contents())
  {
    m := new LinkedHashMapCustom(hashCode, nil);
    for i := 0 to |ops|
      invariant fresh(m) && fresh(m.table) && fresh(Nodes(m.chains))
      invariant m.Valid() && m.Contents() == OrderedMap.Run(ops[..i])
    {
      assert ops[..i + 1][..i] == ops[..i];
      match ops[i]
      case PutOp(k, v) =>
        m.Put(Value(k), v);
      case RemoveOp(k) =>
        var removed := m.Remove(k);
    }
    assert ops[..|ops|] == ops;
    OrderedMap.HistoryOrder(ops);
  }

  lemma DropFirst<K, V>(o: seq<Entry<K, V>>, k: K)
    requires o != [] && o[0].key == k
    ensures Drop(o, k) == o[1..]
  {
    SeekIs(o, k, 0);
  }

  lemma DropLast<K, V>(o: seq<Entry<K, V>>, k: K)
    requires o != [] && Distinct(o) && o[|o| - 1].key == k
    ensures Drop(o, k) == o[..|o| - 1]
  {
    SeekIs(o, k, |o| - 1);
  }

  lemma AtInsert<K, V>(o: seq<Entry<K, V>>, i: int, e: Entry<K, V>, j: int)
    requires 0 <= i < |o| && j >= -1
    ensures var p := o[..i + 1] + [e] + o[i + 1..];
            && (j <= i ==> At(p, j) == At(o, j))
            && (j == i + 1 ==> At(p, j) == e)
            && (j > i + 1 ==> At(p, j) == At(o, j - 1))
  {}

  lemma DropThenInsert<K, V>(o: seq<Entry<K, V>>, i: int, e: Entry<K, V>)
    requires 0 <= i < |o|
    ensures var d := o[..i] + o[i + 1..]; d[..i] + [e] + d[i..] == o[i := e]
  {}

  /** Links that go around the node at i form the list without it. */
  lemma Bypassed<K, V>(header: Entry?<K, V>, last: Entry?<K, V>, o: seq<Entry<K, V>>, i: int)
    requires 1 <= i < |o| - 1 && header == At(o, 0) && last == At(o, |o| - 1)
    requires forall k {:trigger o[k].after} :: 0 <= k < |o| && k != i - 1 ==> o[k].after == At(o, k + 1)
    requires forall k {:trigger o[k].before} :: 0 <= k < |o| && k != i + 1 ==> o[k].before == At(o, k - 1)
    requires o[i - 1].after == o[i + 1] && o[i + 1].before == o[i - 1]
    ensures Listed(header, last, o[..i] + o[i + 1..])
  {
    var d := o[..i] + o[i + 1..];
    AtDrop(o, i, 0);
    AtDrop(o, i, |d| - 1);
    forall j | 0 <= j < |d| ensures d[j].after == At(d, j + 1) && d[j].before == At(d, j - 1) {
      AtDrop(o, i, j);
      AtDrop(o, i, j + 1);
      AtDrop(o, i, j - 1);
    }
  }

  /** Links that put a new node in front form the list with it. */
  lemma Prepended<K, V>(last: Entry?<K, V>, o: seq<Entry<K, V>>, e: Entry<K, V>)
    requires e.after == At(o, 0) && e.before == null && last == if o == [] then e else o[|o| - 1]
    requires forall k {:trigger o[k].after} :: 0 <= k < |o| ==> o[k].after == At(o, k + 1)
    requires forall k {:trigger o[k].before} :: 0 < k < |o| ==> o[k].before == At(o, k - 1)
    requires o != [] ==> o[0].before == e
    ensures Listed(e, last, [e] + o)
  {
    var p := [e] + o;
    forall j | 0 <= j < |p| ensures p[j].after == At(p, j + 1) && p[j].before == At(p, j - 1) {
      if j > 0 { assert p[j] == o[j - 1]; }
    }
  }

  /** Links that pass through a new node after i form the list with it. */
  lemma Spliced<K, V>(header: Entry?<K, V>, last: Entry?<K, V>, o: seq<Entry<K, V>>, i: int, e: Entry<K, V>)
    requires 0 <= i < |o| - 1 && header == At(o, 0) && last == At(o, |o| - 1)
    requires forall k {:trigger o[k].after} :: 0 <= k < |o| && k != i ==> o[k].after == At(o, k + 1)
    requires forall k {:trigger o[k].before} :: 0 <= k < |o| && k != i + 1 ==> o[k].before == At(o, k - 1)
    requires o[i].after == e && e.after == o[i + 1] && o[i + 1].before == e && e.before == o[i]
    ensures Listed(header, last, o[..i + 1] + [e] + o[i + 1..])
  {
    var p := o[..i + 1] + [e] + o[i + 1..];
    AtInsert(o, i, e, 0);
    AtInsert(o, i, e, |p| - 1);
    forall j | 0 <= j < |p| ensures p[j].after == At(p, j + 1) && p[j].before == At(p, j - 1) {
      AtInsert(o, i, e, j);
      AtInsert(o, i, e, j + 1);
      AtInsert(o, i, e, j - 1);
    }
  }
}
