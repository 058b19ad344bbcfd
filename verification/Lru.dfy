/** A bounded map in recency order: the `lru` crate as the DNS cache uses it. Most recent first. */
module Lru {
  import opened Basics

  datatype Slot<K, V> = Slot(key: K, value: V)

  type Lru<K, V> = seq<Slot<K, V>>

  /** `peek`. */
  function Peek<K(==), V>(l: Lru<K, V>, k: K): Option<V> {
    if l == [] then None
    else if l[0].key == k then Some(l[0].value)
    else Peek(l[1..], k)
  }

  /** `pop`. */
  function Pop<K(==), V>(l: Lru<K, V>, k: K): Lru<K, V> {
    if l == [] then []
    else if l[0].key == k then Pop(l[1..], k)
    else [l[0]] + Pop(l[1..], k)
  }

  /** `get`: a hit becomes the most recent entry. */
  function Get<K(==), V>(l: Lru<K, V>, k: K): Lru<K, V> {
    match Peek(l, k)
    case None => l
    case Some(v) => [Slot(k, v)] + Pop(l, k)
  }

  /** `put`: replaces the entry for the key, or adds one, dropping the least recent entry of a full map. */
  function Put<K(==), V>(l: Lru<K, V>, k: K, v: V, capacity: nat): Lru<K, V>
    requires capacity > 0
  {
    if Peek(l, k).Some? then [Slot(k, v)] + Pop(l, k)
    else if |l| >= capacity then [Slot(k, v)] + l[..|l| - 1]
    else [Slot(k, v)] + l
  }

  /** `peek_mut` followed by an assignment: the value changes, the recency does not. */
  function Update<K(==), V>(l: Lru<K, V>, k: K, v: V): Lru<K, V> {
    if l == [] then []
    else if l[0].key == k then [Slot(k, v)] + l[1..]
    else [l[0]] + Update(l[1..], k, v)
  }

  /** Collecting the keys whose values satisfy `p`, then popping each. */
  function Drop<K, V>(l: Lru<K, V>, p: V -> bool): Lru<K, V> {
    if l == [] then []
    else if p(l[0].value) then Drop(l[1..], p)
    else [l[0]] + Drop(l[1..], p)
  }

  /** No two entries for one key. */
  ghost predicate Distinct<K, V>(l: Lru<K, V>) {
    forall i, j :: 0 <= i < j < |l| ==> l[i].key != l[j].key
  }

  lemma {:induction false} PeekIsAt<K, V>(l: Lru<K, V>, k: K)
    ensures Peek(l, k).None? <==> forall i :: 0 <= i < |l| ==> l[i].key != k
    ensures Peek(l, k).Some? ==> exists i :: 0 <= i < |l| && l[i] == Slot(k, Peek(l, k).value)
  {
    if l == [] {
    } else {
      PeekIsAt(l[1..], k);
      if l[0].key == k {
        assert l[0] == Slot(k, Peek(l, k).value);
      } else if Peek(l, k).Some? {
        var i :| 0 <= i < |l[1..]| && l[1..][i] == Slot(k, Peek(l[1..], k).value);
        assert l[i + 1] == l[1..][i];
      } else {
        forall i | 0 <= i < |l|
          ensures l[i].key != k
        {
          assert i == 0 || l[i] == l[1..][i - 1];
        }
      }
    }
  }

  lemma {:induction false} PeekUnique<K, V>(l: Lru<K, V>, i: nat)
    requires Distinct(l) && i < |l|
    ensures Peek(l, l[i].key) == Some(l[i].value)
  {
    if i == 0 {
    } else {
      assert l[i] == l[1..][i - 1];
      PeekUnique(l[1..], i - 1);
      assert l[0].key != l[i].key;
    }
  }

  lemma {:induction false} PeekPop<K, V>(l: Lru<K, V>, k: K, q: K)
    ensures Peek(Pop(l, k), q) == if q == k then None else Peek(l, q)
  {
    if l == [] {
    } else {
      PeekPop(l[1..], k, q);
      assert l[0].key != k ==> ([l[0]] + Pop(l[1..], k))[1..] == Pop(l[1..], k);
    }
  }

  lemma PeekGet<K, V>(l: Lru<K, V>, k: K, q: K)
    ensures Peek(Get(l, k), q) == Peek(l, q)
  {
    if Peek(l, k).Some? {
      PeekPop(l, k, q);
      assert Get(l, k)[1..] == Pop(l, k);
    }
  }

  lemma {:induction false} PeekUpdate<K, V>(l: Lru<K, V>, k: K, v: V, q: K)
    ensures Peek(Update(l, k, v), q) == if q == k && Peek(l, k).Some? then Some(v) else Peek(l, q)
  {
    if l == [] {
    } else {
      PeekUpdate(l[1..], k, v, q);
      if l[0].key == k {
        assert Update(l, k, v)[1..] == l[1..];
      } else {
        assert Update(l, k, v)[1..] == Update(l[1..], k, v);
      }
    }
  }

  /** A `put` that does not meet a full map with a new key is an ordinary map update. */
  lemma PeekPut<K, V>(l: Lru<K, V>, k: K, v: V, capacity: nat, q: K)
    requires capacity > 0 && (Peek(l, k).Some? || |l| < capacity)
    ensures Peek(Put(l, k, v, capacity), q) == if q == k then Some(v) else Peek(l, q)
  {
    PeekPop(l, k, q);
    assert Put(l, k, v, capacity)[1..] == if Peek(l, k).Some? then Pop(l, k) else l;
  }

  /** A `put` of a new key into a full map drops the least recent entry and nothing else. */
  lemma PeekPutFull<K, V>(l: Lru<K, V>, k: K, v: V, capacity: nat, q: K)
    requires Distinct(l) && capacity > 0 && |l| == capacity && Peek(l, k).None?
    ensures Peek(Put(l, k, v, capacity), q)
         == if q == k then Some(v) else if q == l[|l| - 1].key then None else Peek(l, q)
  {
    var n := |l| - 1;
    assert Put(l, k, v, capacity)[1..] == l[..n];
    PeekAllButLast(l, q);
  }

  lemma PeekAllButLast<K, V>(l: Lru<K, V>, q: K)
    requires Distinct(l) && l != []
    ensures Peek(l[..|l| - 1], q) == if q == l[|l| - 1].key then None else Peek(l, q)
  {
    var n := |l| - 1;
    PeekPrefix(l, n, q);
    PeekIsAt(l[..n], q);
    PeekIsAt(l, q);
    if q != l[n].key && Peek(l, q).Some? {
      var i :| 0 <= i < |l| && l[i] == Slot(q, Peek(l, q).value);
      assert l[..n][i] == l[i];
    }
  }

  lemma {:induction false} PeekPrefix<K, V>(l: Lru<K, V>, n: nat, q: K)
    requires n <= |l|
    ensures Peek(l[..n], q).Some? ==> Peek(l, q) == Peek(l[..n], q)
    decreases n
  {
    if n == 0 {
    } else {
      assert l[..n][1..] == l[1..][..n - 1];
      PeekPrefix(l[1..], n - 1, q);
    }
  }

  /** Any `put` only ever adds the key it was given; a full map may lose another. */
  lemma PutAddsOnlyItsKey<K, V>(l: Lru<K, V>, k: K, v: V, capacity: nat, q: K)
    requires capacity > 0
    ensures Peek(Put(l, k, v, capacity), k) == Some(v)
    ensures q != k && Peek(Put(l, k, v, capacity), q).Some? ==> Peek(Put(l, k, v, capacity), q) == Peek(l, q)
  {
    PeekPop(l, k, q);
    if Peek(l, k).None? && |l| >= capacity && |l| > 0 {
      PeekPrefix(l, |l| - 1, q);
      assert Put(l, k, v, capacity)[1..] == l[..|l| - 1];
    } else {
      assert Put(l, k, v, capacity)[1..] == if Peek(l, k).Some? then Pop(l, k) else l;
    }
  }

  lemma {:induction false} PopLength<K, V>(l: Lru<K, V>, k: K)
    ensures |Pop(l, k)| <= |l|
    ensures Peek(l, k).Some? ==> |Pop(l, k)| < |l|
  {
    if l == [] {
    } else {
      PopLength(l[1..], k);
    }
  }

  lemma DistinctCons<K, V>(s: Slot<K, V>, l: Lru<K, V>)
    requires Distinct(l) && Peek(l, s.key).None?
    ensures Distinct([s] + l)
  {
    PeekIsAt(l, s.key);
  }

  lemma DistinctTail<K, V>(l: Lru<K, V>)
    requires Distinct(l) && l != []
    ensures Distinct(l[1..]) && Peek(l[1..], l[0].key).None?
  {
    PeekIsAt(l[1..], l[0].key);
  }

  lemma {:induction false} DistinctPop<K, V>(l: Lru<K, V>, k: K)
    requires Distinct(l)
    ensures Distinct(Pop(l, k))
  {
    if l == [] {
    } else {
      DistinctTail(l);
      DistinctPop(l[1..], k);
      if l[0].key != k {
        PeekPop(l[1..], k, l[0].key);
        DistinctCons(l[0], Pop(l[1..], k));
      }
    }
  }

  lemma DistinctGet<K, V>(l: Lru<K, V>, k: K)
    requires Distinct(l)
    ensures Distinct(Get(l, k)) && |Get(l, k)| <= |l|
  {
    if Peek(l, k).Some? {
      DistinctPop(l, k);
      PopLength(l, k);
      PeekPop(l, k, k);
      DistinctCons(Slot(k, Peek(l, k).value), Pop(l, k));
    }
  }

  /** The map never outgrows its capacity and never holds a key twice. */
  lemma DistinctPut<K, V>(l: Lru<K, V>, k: K, v: V, capacity: nat)
    requires Distinct(l) && capacity > 0 && |l| <= capacity
    ensures Distinct(Put(l, k, v, capacity)) && |Put(l, k, v, capacity)| <= capacity
  {
    if Peek(l, k).Some? {
      DistinctPop(l, k);
      PopLength(l, k);
      PeekPop(l, k, k);
      DistinctCons(Slot(k, v), Pop(l, k));
    } else if |l| >= capacity {
      PeekPrefix(l, |l| - 1, k);
      DistinctCons(Slot(k, v), l[..|l| - 1]);
    } else {
      DistinctCons(Slot(k, v), l);
    }
  }

  lemma {:induction false} UpdateKeys<K, V>(l: Lru<K, V>, k: K, v: V)
    ensures |Update(l, k, v)| == |l| && forall i :: 0 <= i < |l| ==> Update(l, k, v)[i].key == l[i].key
  {
    if l != [] && l[0].key != k {
      UpdateKeys(l[1..], k, v);
      assert forall i :: 0 < i < |l| ==> l[i] == l[1..][i - 1];
    }
  }

  /** A sweep removes exactly the entries that satisfy the condition. */
  lemma {:induction false} PeekDrop<K, V>(l: Lru<K, V>, p: V -> bool, q: K)
    requires Distinct(l)
    ensures Peek(Drop(l, p), q) == if Peek(l, q).Some? && !p(Peek(l, q).value) then Peek(l, q) else None
    ensures |Drop(l, p)| <= |l|
  {
    if l == [] {
    } else {
      DistinctTail(l);
      PeekDrop(l[1..], p, q);
      if !p(l[0].value) {
        assert Drop(l, p)[1..] == Drop(l[1..], p);
      }
    }
  }

  lemma {:induction false} DistinctDrop<K, V>(l: Lru<K, V>, p: V -> bool)
    requires Distinct(l)
    ensures Distinct(Drop(l, p))
  {
    if l == [] {
    } else {
      DistinctTail(l);
      DistinctDrop(l[1..], p);
      if !p(l[0].value) {
        PeekDrop(l[1..], p, l[0].key);
        DistinctCons(l[0], Drop(l[1..], p));
      }
    }
  }
}
