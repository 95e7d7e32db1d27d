/** The plain hash map: bucket chains only. */
module HashMaps {
  import opened JavaInt
  import opened Hashing
  import opened Entries
  import OrderedMap

  const CAPACITY: int := 4

  /** A key, or Java's null. */
  datatype Nullable<K> = Null | Value(key: K)

  function Bucket<K>(hashCode: K -> int, k: K): int {
    BucketIndex(hashCode(k), CAPACITY)
  }

  ghost predicate IsHash<K(!new)>(hashCode: K -> int) {
    forall k :: MIN_INT <= hashCode(k) <= MAX_INT
  }

  lemma BucketInRange<K(!new)>(hashCode: K -> int, k: K)
    requires IsHash(hashCode)
    ensures 0 <= Bucket(hashCode, k) < CAPACITY
  {
    IndexInRangeIff(CAPACITY);
  }

  /** Four chains, each duplicate-free and holding only keys of its own bucket. */
  ghost predicate Bucketed<K, V>(hashCode: K -> int, chains: seq<seq<Entry<K, V>>>) {
    && |chains| == CAPACITY
    && (forall b :: 0 <= b < CAPACITY ==> Distinct(chains[b]))
    && (forall b, e :: 0 <= b < CAPACITY && e in chains[b] ==> Bucket(hashCode, e.key) == b)
  }

  ghost function Nodes<K, V>(chains: seq<seq<Entry<K, V>>>): set<Entry<K, V>> {
    set b, e | 0 <= b < |chains| && e in chains[b] :: e
  }

  ghost predicate InTable<K, V>(table: array<Entry?<K, V>>, chains: seq<seq<Entry<K, V>>>)
    reads table, Nodes(chains)`next
  {
    table.Length == |chains| == CAPACITY && forall b :: 0 <= b < CAPACITY ==> Chained(table[b], chains[b])
  }

  lemma PlaceMembers<K, V>(c: seq<Entry<K, V>>, e: Entry<K, V>)
    requires Distinct(c)
    ensures Distinct(Place(c, e)) && e in Place(c, e)
    ensures forall x :: x in Place(c, e) ==> x == e || (x in c && x.key != e.key)
    ensures forall x :: x in c && x.key != e.key ==> x in Place(c, e)
  {
    var i, p := Seek(c, e.key), Place(c, e);
    assert p[if i < |c| then i else |c|] == e;
    forall x | x in c && x.key != e.key ensures x in p {
      var j :| 0 <= j < |c| && c[j] == x;
      assert p[j] == x;
    }
  }

  lemma DropMembers<K, V>(c: seq<Entry<K, V>>, k: K)
    requires Distinct(c)
    ensures Distinct(Drop(c, k))
    ensures forall x :: x in Drop(c, k) ==> x in c && x.key != k
    ensures forall x :: x in c && x.key != k ==> x in Drop(c, k)
  {
    var i, d := Seek(c, k), Drop(c, k);
    forall j | 0 <= j < |d| ensures d[j] == (if j < i then c[j] else c[j + 1]) && d[j].key != k {
      if i < |c| && j >= i { assert c[i].key != c[j + 1].key; }
    }
    forall x | x in c && x.key != k ensures x in d {
      var j :| 0 <= j < |c| && c[j] == x;
      if j < i { assert d[j] == x; } else { assert d[j - 1] == x; }
    }
  }

  lemma BucketedAfterPut<K, V>(hashCode: K -> int, chains: seq<seq<Entry<K, V>>>, h: int, e: Entry<K, V>)
    requires Bucketed(hashCode, chains) && 0 <= h < CAPACITY && Bucket(hashCode, e.key) == h
    ensures Bucketed(hashCode, chains[h := Place(chains[h], e)])
  {
    PlaceMembers(chains[h], e);
  }

  lemma BucketedAfterRemove<K, V>(hashCode: K -> int, chains: seq<seq<Entry<K, V>>>, h: int, k: K)
    requires Bucketed(hashCode, chains) && 0 <= h < CAPACITY
    ensures Bucketed(hashCode, chains[h := Drop(chains[h], k)])
  {
    DropMembers(chains[h], k);
  }

  /** Put a new node into its bucket; the other buckets are untouched. */
  method PutInTable<K(==), V>(table: array<Entry?<K, V>>, newEntry: Entry<K, V>, h: int,
                              ghost hashCode: K -> int, ghost chains: seq<seq<Entry<K, V>>>)
    requires Bucketed(hashCode, chains) && InTable(table, chains) && 0 <= h < CAPACITY
    requires Bucket(hashCode, newEntry.key) == h
    requires newEntry !in Nodes(chains) && newEntry.next == null
    modifies table, Nodes(chains)`next, newEntry`next
    ensures InTable(table, chains[h := Place(chains[h], newEntry)])
  {
    assert forall b, e :: 0 <= b < CAPACITY && b != h && e in chains[b] ==> e !in chains[h] && e != newEntry;
    PutInChain(table, h, newEntry, chains[h]);
  }

  method UnlinkInTable<K(==), V>(table: array<Entry?<K, V>>, h: int, previous: Entry?<K, V>, current: Entry<K, V>,
                                 ghost hashCode: K -> int, ghost chains: seq<seq<Entry<K, V>>>)
    requires Bucketed(hashCode, chains) && InTable(table, chains) && 0 <= h < CAPACITY
    requires var c := chains[h]; var i := Seek(c, current.key);
             i < |c| && c[i] == current && previous == At(c, i - 1)
    modifies table, Nodes(chains)`next
    ensures InTable(table, chains[h := Drop(chains[h], current.key)])
  {
    assert forall b, e :: 0 <= b < CAPACITY && b != h && e in chains[b] ==> e !in chains[h];
    UnlinkFromChain(table, h, previous, current, chains[h], Seek(chains[h], current.key));
  }

  ghost predicate Has<K, V>(c: seq<Entry<K, V>>, k: K) {
    Seek(c, k) < |c|
  }

  ghost predicate Recorded<K, V>(chains: seq<seq<Entry<K, V>>>, m: map<K, V>) {
    forall b, e :: 0 <= b < |chains| && e in chains[b] ==> e.key in m && m[e.key] == e.value
  }

  /** Chains and the abstract map tell the same about every key. */
  ghost predicate Agrees<K(!new), V>(hashCode: K -> int, chains: seq<seq<Entry<K, V>>>, m: map<K, V>) {
    && Recorded(chains, m)
    && forall k :: k in m ==> 0 <= Bucket(hashCode, k) < |chains| && Has(chains[Bucket(hashCode, k)], k)
  }

  /** A search of the right chain answers for the map. */
  lemma ChainAnswers<K(!new), V>(hashCode: K -> int, chains: seq<seq<Entry<K, V>>>, m: map<K, V>, h: int, k: K)
    requires Bucketed(hashCode, chains) && Agrees(hashCode, chains, m) && 0 <= h < CAPACITY && Bucket(hashCode, k) == h
    ensures var c := chains[h]; var i := Seek(c, k); (i < |c| <==> k in m) && (i < |c| ==> m[k] == c[i].value)
  {
    var c := chains[h];
    if Seek(c, k) < |c| { assert c[Seek(c, k)] in c; }
  }

  lemma MemberIsFound<K, V>(c: seq<Entry<K, V>>, x: Entry<K, V>)
    requires x in c
    ensures Seek(c, x.key) < |c|
  {
    var j :| 0 <= j < |c| && c[j] == x;
  }

  lemma FoundAfterPut<K, V>(c: seq<Entry<K, V>>, e: Entry<K, V>, k: K)
    requires Distinct(c) && (k == e.key || Has(c, k))
    ensures Has(Place(c, e), k)
  {
    PlaceMembers(c, e);
    var x := if k == e.key then e else c[Seek(c, k)];
    assert k != e.key ==> x in c;
    MemberIsFound(Place(c, e), x);
  }

  lemma FoundAfterRemove<K, V>(c: seq<Entry<K, V>>, gone: K, k: K)
    requires Distinct(c) && k != gone && Has(c, k)
    ensures Has(Drop(c, gone), k)
  {
    DropMembers(c, gone);
    var x := c[Seek(c, k)];
    assert x in c;
    MemberIsFound(Drop(c, gone), x);
  }

  lemma RecordedAfterPut<K, V>(hashCode: K -> int, chains: seq<seq<Entry<K, V>>>, m: map<K, V>, h: int, e: Entry<K, V>)
    requires Bucketed(hashCode, chains) && Recorded(chains, m) && 0 <= h < CAPACITY && Bucket(hashCode, e.key) == h
    ensures Recorded(chains[h := Place(chains[h], e)], m[e.key := e.value])
  {
    var chains', m' := chains[h := Place(chains[h], e)], m[e.key := e.value];
    PlaceMembers(chains[h], e);
    forall b, x: Entry<K, V> | 0 <= b < |chains'| && x in chains'[b] ensures x.key in m' && m'[x.key] == x.value {
      if x != e { assert x in chains[b]; }
    }
  }

  lemma AgreesAfterPut<K(!new), V>(hashCode: K -> int, chains: seq<seq<Entry<K, V>>>, m: map<K, V>, h: int,
                         e: Entry<K, V>)
    requires Bucketed(hashCode, chains) && Agrees(hashCode, chains, m) && 0 <= h < CAPACITY
    requires Bucket(hashCode, e.key) == h
    ensures Agrees(hashCode, chains[h := Place(chains[h], e)], m[e.key := e.value])
  {
    var chains', m' := chains[h := Place(chains[h], e)], m[e.key := e.value];
    RecordedAfterPut(hashCode, chains, m, h, e);
    forall k | k in m' ensures 0 <= Bucket(hashCode, k) < |chains'| && Has(chains'[Bucket(hashCode, k)], k) {
      if Bucket(hashCode, k) == h { FoundAfterPut(chains[h], e, k); }
    }
  }

  lemma RecordedAfterRemove<K, V>(hashCode: K -> int, chains: seq<seq<Entry<K, V>>>, m: map<K, V>, h: int, k: K)
    requires Bucketed(hashCode, chains) && Recorded(chains, m) && 0 <= h < CAPACITY && Bucket(hashCode, k) == h
    ensures Recorded(chains[h := Drop(chains[h], k)], m - {k})
  {
    var chains', m' := chains[h := Drop(chains[h], k)], m - {k};
    DropMembers(chains[h], k);
    forall b, x: Entry<K, V> | 0 <= b < |chains'| && x in chains'[b] ensures x.key in m' && m'[x.key] == x.value {
      assert x in chains[b];
    }
  }

  lemma AgreesAfterRemove<K(!new), V>(hashCode: K -> int, chains: seq<seq<Entry<K, V>>>, m: map<K, V>, h: int, k: K)
    requires Bucketed(hashCode, chains) && Agrees(hashCode, chains, m) && 0 <= h < CAPACITY && Bucket(hashCode, k) == h
    ensures Agrees(hashCode, chains[h := Drop(chains[h], k)], m - {k})
  {
    var chains', m' := chains[h := Drop(chains[h], k)], m - {k};
    RecordedAfterRemove(hashCode, chains, m, h, k);
    forall y | y in m' ensures 0 <= Bucket(hashCode, y) < |chains'| && Has(chains'[Bucket(hashCode, y)], y) {
      if Bucket(hashCode, y) == h { FoundAfterRemove(chains[h], k, y); }
    }
  }

  class HashMapCustom<K(==, !new), V> {
    const hashCode: K -> int
    /** Java's null, which `get` returns for a missing key and which may also be a stored value. */
    const nil: V
    const table: array<Entry?<K, V>>
    ghost var chains: seq<seq<Entry<K, V>>>
    ghost var contents: map<K, V>

    ghost predicate Valid()
      reads this, table, Nodes(chains)`next
    {
      IsHash(hashCode) && Bucketed(hashCode, chains) && InTable(table, chains) && Agrees(hashCode, chains, contents)
    }

    constructor (hashCode: K -> int, nil: V)
      requires IsHash(hashCode)
      ensures Valid() && contents == map[] && fresh(table) && Nodes(chains) == {}
    {
      this.hashCode, this.nil := hashCode, nil;
      table := new Entry?<K, V>[CAPACITY](i => null);
      chains := [[], [], [], []];
      contents := map[];
    }

    method Put(newKey: Nullable<K>, data: V)
      requires Valid()
      modifies this`chains, this`contents, table, Nodes(chains)`next
      ensures Valid() && fresh(Nodes(chains) - old(Nodes(chains)))
      ensures contents == if newKey.Null? then old(contents) else old(contents)[newKey.key := data]
    {
      if newKey.Null? {
        return;
      }
      BucketInRange(hashCode, newKey.key);
      var hash := Bucket(hashCode, newKey.key);
      var newEntry := new Entry(newKey.key, data);
      BucketedAfterPut(hashCode, chains, hash, newEntry);
      AgreesAfterPut(hashCode, chains, contents, hash, newEntry);
      PlaceMembers(chains[hash], newEntry);
      PutInTable(table, newEntry, hash, hashCode, chains);
      chains := chains[hash := Place(chains[hash], newEntry)];
      contents := contents[newKey.key := data];
    }

    method Get(key: K) returns (v: V)
      requires Valid()
      ensures v == if key in contents then contents[key] else nil
    {
      BucketInRange(hashCode, key);
      var hash := Bucket(hashCode, key);
      ChainAnswers(hashCode, chains, contents, hash, key);
      var previous, current := FindInChain(table[hash], key, chains[hash]);
      if current != null {
        return current.value;
      }
      return nil;
    }

    method Remove(deleteKey: K) returns (removed: bool)
      requires Valid()
      modifies this`chains, this`contents, table, Nodes(chains)`next
      ensures Valid() && Nodes(chains) <= old(Nodes(chains))
      ensures removed == (deleteKey in old(contents)) && contents == old(contents) - {deleteKey}
    {
      BucketInRange(hashCode, deleteKey);
      var hash := Bucket(hashCode, deleteKey);
      ChainAnswers(hashCode, chains, contents, hash, deleteKey);
      var previous, current := FindInChain(table[hash], deleteKey, chains[hash]);
      if current == null {
        assert contents - {deleteKey} == contents;
        return false;
      }
      Detach(hash, previous, current);
      return true;
    }

    /** Unlink the entry found by `Remove`. */
    method Detach(hash: int, previous: Entry?<K, V>, current: Entry<K, V>)
      requires Valid() && 0 <= hash < CAPACITY && Bucket(hashCode, current.key) == hash
      requires var c := chains[hash]; var i := Seek(c, current.key);
               i < |c| && c[i] == current && previous == At(c, i - 1)
      modifies this`chains, this`contents, table, Nodes(chains)`next
      ensures Valid() && Nodes(chains) <= old(Nodes(chains)) && contents == old(contents) - {current.key}
    {
      ghost var k := current.key;
      ghost var chains' := chains[hash := Drop(chains[hash], k)];
      BucketedAfterRemove(hashCode, chains, hash, k);
      AgreesAfterRemove(hashCode, chains, contents, hash, k);
      assert Nodes(chains') <= Nodes(chains) by { DropMembers(chains[hash], k); }
      UnlinkInTable(table, hash, previous, current, hashCode, chains);
      chains := chains';
      contents := contents - {k};
    }
  }

  /** The map of the live keys, each with the value of its last put. */
  ghost predicate Reflects<K(!new), V>(ops: seq<OrderedMap.Op<K, V>>, m: map<K, V>) {
    && (forall k :: k in m <==> OrderedMap.Live(ops, k))
    && (forall k :: k in m ==> m[k] == OrderedMap.Latest(ops, k))
  }

  lemma ReflectsNext<K(!new), V>(ops: seq<OrderedMap.Op<K, V>>, m: map<K, V>, op: OrderedMap.Op<K, V>)
    requires Reflects(ops, m)
    ensures Reflects(ops + [op], if op.PutOp? then m[op.key := op.value] else m - {op.key})
  {
    assert (ops + [op])[..|ops|] == ops;
  }

  /** Any sequence of puts and removes on a new map leaves exactly the live keys with their latest values. */
  method Execute<K(==, !new), V>(hashCode: K -> int, nil: V, ops: seq<OrderedMap.Op<K, V>>)
      returns (m: HashMapCustom<K, V>)
    requires IsHash(hashCode)
    ensures m.Valid() && Reflects(ops, m.contents)
  {
    m := new HashMapCustom(hashCode, nil);
    for i := 0 to |ops|
      invariant fresh(m) && fresh(m.table) && fresh(Nodes(m.chains))
      invariant m.Valid() && Reflects(ops[..i], m.contents)
    {
      assert ops[..i + 1] == ops[..i] + [ops[i]];
      ReflectsNext(ops[..i], m.contents, ops[i]);
      match ops[i]
      case PutOp(k, v) =>
        m.Put(Value(k), v);
      case RemoveOp(k) =>
        var removed := m.Remove(k);
    }
    assert ops[..|ops|] == ops;
  }
}
