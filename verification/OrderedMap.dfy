/** The abstract insertion-ordered map: what any sequence of puts and removes must leave behind. */
module OrderedMap {

  /** The place of a key, or the length if it is absent. */
  function Find<K(==), V>(s: seq<(K, V)>, k: K): (i: nat)
    ensures i <= |s| && (i < |s| ==> s[i].0 == k)
    ensures forall j :: 0 <= j < i ==> s[j].0 != k
  {
    if s == [] then 0 else if s[0].0 == k then 0 else 1 + Find(s[1..], k)
  }

  function Put<K(==), V>(s: seq<(K, V)>, k: K, v: V): seq<(K, V)> {
    var i := Find(s, k);
    if i < |s| then s[i := (k, v)] else s + [(k, v)]
  }

  function Remove<K(==), V>(s: seq<(K, V)>, k: K): seq<(K, V)> {
    var i := Find(s, k);
    if i < |s| then s[..i] + s[i + 1..] else s
  }

  ghost predicate DistinctKeys<K, V>(s: seq<(K, V)>) {
    forall i, j :: 0 <= i < j < |s| ==> s[i].0 != s[j].0
  }

  datatype Op<K, V> = PutOp(key: K, value: V) | RemoveOp(key: K)

  function Apply<K(==), V>(s: seq<(K, V)>, op: Op<K, V>): seq<(K, V)> {
    match op
    case PutOp(k, v) => Put(s, k, v)
    case RemoveOp(k) => Remove(s, k)
  }

  function Run<K(==), V>(ops: seq<Op<K, V>>): seq<(K, V)> {
    if ops == [] then [] else Apply(Run(ops[..|ops| - 1]), ops[|ops| - 1])
  }

  // ----- what a history means, read off the operations alone

  /** The key's last operation was a put. */
  predicate Live<K(==), V>(ops: seq<Op<K, V>>, k: K) {
    if ops == [] then false
    else if ops[|ops| - 1].key == k then ops[|ops| - 1].PutOp?
    else Live(ops[..|ops| - 1], k)
  }

  /** The value of the key's last put. */
  function Latest<K(==), V>(ops: seq<Op<K, V>>, k: K): V
    requires Live(ops, k)
  {
    if ops[|ops| - 1].key == k then ops[|ops| - 1].value else Latest(ops[..|ops| - 1], k)
  }

  /** When the key was last inserted afresh: overwriting does not count, re-inserting after a remove does. */
  function Birth<K(==), V>(ops: seq<Op<K, V>>, k: K): (t: nat)
    requires Live(ops, k)
    ensures t < |ops|
  {
    var front := ops[..|ops| - 1];
    if ops[|ops| - 1].key != k then Birth(front, k)
    else if Live(front, k) then Birth(front, k)
    else |front|
  }

  /** Position by position: a live key with its latest value, earlier births first. */
  ghost predicate Explains<K(!new), V>(ops: seq<Op<K, V>>, s: seq<(K, V)>) {
    && (forall i :: 0 <= i < |s| ==> Live(ops, s[i].0) && s[i].1 == Latest(ops, s[i].0))
    && (forall i, j :: 0 <= i < j < |s| ==> Birth(ops, s[i].0) < Birth(ops, s[j].0))
    && (forall k :: Live(ops, k) ==> Find(s, k) < |s|)
  }

  lemma ExplainsPut<K(!new), V>(ops: seq<Op<K, V>>, s: seq<(K, V)>, k: K, v: V)
    requires Explains(ops, s) && DistinctKeys(s)
    ensures Explains(ops + [PutOp(k, v)], Put(s, k, v)) && DistinctKeys(Put(s, k, v))
  {
    var ops', t := ops + [PutOp(k, v)], Put(s, k, v);
    assert ops'[..|ops|] == ops;
    var p := Find(s, k);
    assert Live(ops, k) ==> p < |s|;
    forall i | 0 <= i < |t| ensures Live(ops', t[i].0) && t[i].1 == Latest(ops', t[i].0)
      ensures i < |s| ==> t[i].0 == s[i].0 && Birth(ops', t[i].0) == Birth(ops, s[i].0)
      ensures i == |s| ==> Birth(ops', t[i].0) == |ops|
    {
      if i < |s| && i != p { assert s[i].0 != k; }
    }
    forall x | Live(ops', x) ensures Find(t, x) < |t| {
      if x == k { assert t[p].0 == k; }
      else { var q := Find(s, x); assert t[q].0 == x; }
    }
  }

  lemma ExplainsRemove<K(!new), V>(ops: seq<Op<K, V>>, s: seq<(K, V)>, k: K)
    requires Explains(ops, s) && DistinctKeys(s)
    ensures Explains(ops + [RemoveOp(k)], Remove(s, k)) && DistinctKeys(Remove(s, k))
  {
    var ops', t := ops + [RemoveOp(k)], Remove(s, k);
    assert ops'[..|ops|] == ops;
    RemovedAt(s, k);
    forall i | 0 <= i < |t|
      ensures Live(ops', t[i].0) && t[i].1 == Latest(ops', t[i].0) && Birth(ops', t[i].0) == Birth(ops, t[i].0)
    {
      assert t[i].0 != k;
    }
    forall x | Live(ops', x) ensures Find(t, x) < |t| {
      StillFound(s, k, x);
    }
  }

  lemma RemovedAt<K, V>(s: seq<(K, V)>, k: K)
    requires DistinctKeys(s)
    ensures var t, p := Remove(s, k), Find(s, k);
            forall i :: 0 <= i < |t| ==> t[i].0 != k && t[i] == s[if i < p then i else i + 1]
  {
    var t, p := Remove(s, k), Find(s, k);
    forall i | 0 <= i < |t| ensures t[i].0 != k && t[i] == s[if i < p then i else i + 1] {
      if i >= p { assert s[p].0 != s[i + 1].0; }
    }
  }

  lemma StillFound<K, V>(s: seq<(K, V)>, k: K, x: K)
    requires x != k && Find(s, x) < |s|
    ensures Find(Remove(s, k), x) < |Remove(s, k)|
  {
    var q, p := Find(s, x), Find(s, k);
    assert Remove(s, k)[if q < p then q else q - 1].0 == x;
  }

  /** After any sequence of puts and removes, the map holds exactly the live keys, each once and with its
      latest value, in the order of their births: an overwrite keeps its place, and a key put again
      after a remove goes to the end. */
  lemma {:induction false} HistoryOrder<K(!new), V>(ops: seq<Op<K, V>>)
    ensures Explains(ops, Run(ops)) && DistinctKeys(Run(ops))
  {
    if ops != [] {
      var front, op := ops[..|ops| - 1], ops[|ops| - 1];
      HistoryOrder(front);
      assert ops == front + [op];
      match op
      case PutOp(k, v) => ExplainsPut(front, Run(front), k, v);
      case RemoveOp(k) => ExplainsRemove(front, Run(front), k);
    }
  }
}
