/** The chained hash tables of bufHash.C and db.C: an array of bucket lists that are
    searched and relinked in place.  BufHashTbl maps (file, page) to a frame number,
    OpenFileHashTbl maps a file name to a File object; both are this table. */
module ChainedHash {
  import opened StatusCodes

  class Bucket<K, V> {
    const key: K
    const value: V
    var next: Bucket?<K, V>

    constructor (key: K, value: V, next: Bucket?<K, V>)
      ensures this.key == key && this.value == value && this.next == next
    {
      this.key, this.value, this.next := key, value, next;
    }
  }

  ghost function After<K, V>(chain: seq<Bucket<K, V>>, j: int): Bucket?<K, V>
    requires -1 <= j < |chain|
  {
    if j + 1 < |chain| then chain[j + 1] else null
  }

  /** The list that starts at `head` consists of exactly the buckets of `chain`. */
  ghost predicate Linked<K, V>(head: Bucket?<K, V>, chain: seq<Bucket<K, V>>)
    reads chain
  {
    && head == After(chain, -1)
    && forall j :: 0 <= j < |chain| ==> chain[j].next == After(chain, j)
  }

  ghost predicate HoldsAt<K, V>(chain: seq<Bucket<K, V>>, j: int, k: K) {
    0 <= j < |chain| && chain[j].key == k
  }

  ghost predicate Holds<K, V>(chain: seq<Bucket<K, V>>, k: K) {
    exists j :: HoldsAt(chain, j, k)
  }

  /** The list an element belongs to, for any hash function. */
  function Index<K>(hash: K -> int, size: nat, k: K): (i: nat)
    ensures 0 < size ==> i < size
  {
    if size == 0 then 0 else hash(k) % size
  }

  /** Every entry of list i belongs to that list and is an entry of m, and none is there twice. */
  ghost predicate ListOK<K, V>(hash: K -> int, size: nat, chain: seq<Bucket<K, V>>, i: nat, m: map<K, V>) {
    && (forall j :: 0 <= j < |chain| ==>
          Index(hash, size, chain[j].key) == i && chain[j].key in m && m[chain[j].key] == chain[j].value)
    && (forall j, k :: 0 <= j < k < |chain| ==> chain[j].key != chain[k].key)
  }

  /** The lists hold exactly the entries of m. */
  ghost predicate Stores<K, V>(hash: K -> int, size: nat, chains: seq<seq<Bucket<K, V>>>, m: map<K, V>) {
    && 0 < size
    && |chains| == size
    && (forall i :: 0 <= i < |chains| ==> ListOK(hash, size, chains[i], i, m))
    && (forall k :: k in m ==> Holds(chains[Index(hash, size, k)], k))
  }

  /** A key is stored exactly when its own list holds it. */
  lemma InOwnList<K, V>(hash: K -> int, size: nat, chains: seq<seq<Bucket<K, V>>>, m: map<K, V>, k: K)
    requires Stores(hash, size, chains, m)
    ensures k in m <==> Holds(chains[Index(hash, size, k)], k)
    ensures forall j :: HoldsAt(chains[Index(hash, size, k)], j, k) ==> chains[Index(hash, size, k)][j].value == m[k]
  {
    assert ListOK(hash, size, chains[Index(hash, size, k)], Index(hash, size, k), m);
  }

  lemma StoresPush<K, V>(hash: K -> int, size: nat, chains: seq<seq<Bucket<K, V>>>, m: map<K, V>, b: Bucket<K, V>)
    requires Stores(hash, size, chains, m) && b.key !in m
    ensures Stores(hash, size, chains[Index(hash, size, b.key) := [b] + chains[Index(hash, size, b.key)]],
      m[b.key := b.value])
  {
    var i := Index(hash, size, b.key);
    var chains' := chains[i := [b] + chains[i]];
    var m' := m[b.key := b.value];
    forall n | 0 <= n < |chains|
      ensures ListOK(hash, size, chains'[n], n, m')
    {
      assert ListOK(hash, size, chains[n], n, m);
    }
    forall k | k in m'
      ensures Holds(chains'[Index(hash, size, k)], k)
    {
      if k == b.key {
        assert HoldsAt(chains'[i], 0, k);
      } else {
        assert Holds(chains[Index(hash, size, k)], k);
        var j :| HoldsAt(chains[Index(hash, size, k)], j, k);
        assert HoldsAt(chains'[Index(hash, size, k)], if Index(hash, size, k) == i then j + 1 else j, k);
      }
    }
  }

  lemma StoresDrop<K, V>(hash: K -> int, size: nat, chains: seq<seq<Bucket<K, V>>>, m: map<K, V>, i: nat, j: nat)
    requires Stores(hash, size, chains, m) && i < |chains| && j < |chains[i]|
    ensures Stores(hash, size, chains[i := chains[i][..j] + chains[i][j + 1..]], m - {chains[i][j].key})
  {
    var x := chains[i][j].key;
    var c := chains[i];
    var c' := c[..j] + c[j + 1..];
    var chains' := chains[i := c'];
    var m' := m - {x};
    assert ListOK(hash, size, c, i, m);
    assert forall n :: 0 <= n < |c'| ==> c'[n] == c[if n < j then n else n + 1];
    forall n | 0 <= n < |chains|
      ensures ListOK(hash, size, chains'[n], n, m')
    {
      assert ListOK(hash, size, chains[n], n, m);
    }
    forall k | k in m'
      ensures Holds(chains'[Index(hash, size, k)], k)
    {
      assert Holds(chains[Index(hash, size, k)], k);
      var n :| HoldsAt(chains[Index(hash, size, k)], n, k);
      assert HoldsAt(chains'[Index(hash, size, k)], if Index(hash, size, k) == i && n > j then n - 1 else n, k);
    }
  }

  /** A bucket is on one list only, and once. */
  lemma BucketsApart<K, V>(hash: K -> int, size: nat, chains: seq<seq<Bucket<K, V>>>, m: map<K, V>, i: nat, j: nat)
    requires Stores(hash, size, chains, m) && i < size && j < |chains[i]|
    ensures forall n, q :: 0 <= n < size && 0 <= q < |chains[n]| && (n != i || q != j) ==> chains[n][q] != chains[i][j]
  {
    assert ListOK(hash, size, chains[i], i, m);
    forall n, q | 0 <= n < size && 0 <= q < |chains[n]| && (n != i || q != j)
      ensures chains[n][q].key != chains[i][j].key
    {
      assert ListOK(hash, size, chains[n], n, m);
    }
  }

  class HashTable<K(==), V(0)> {
    const size: nat
    const hash: K -> int
    const ht: array<Bucket?<K, V>>
    ghost var chains: seq<seq<Bucket<K, V>>>   // the bucket lists, one per entry of ht
    ghost var M: map<K, V>                     // what the table stands for
    ghost var Repr: set<Bucket<K, V>>

    ghost predicate Valid()
      reads this, ht, Repr
    {
      && 0 < size == ht.Length == |chains|
      && (forall i, j :: 0 <= i < size && 0 <= j < |chains[i]| ==> chains[i][j] in Repr)
      && (forall i :: 0 <= i < size ==> Linked(ht[i], chains[i]))
      && Stores(hash, size, chains, M)
    }

    constructor (size: nat, hash: K -> int)
      requires 0 < size
      ensures Valid() && M == map[] && fresh(ht) && Repr == {}
      ensures this.size == size && this.hash == hash
    {
      this.size, this.hash := size, hash;
      ht := new Bucket?<K, V>[size](i => null);
      chains := seq(size, i => []);
      M, Repr := map[], {};
    }

    /** Walks the list of k until it meets the bucket of k or the end. */
    method Walk(k: K, ghost chain: seq<Bucket<K, V>>) returns (prev: Bucket?<K, V>, p: Bucket?<K, V>, ghost j: nat)
      requires 0 < size == ht.Length && Linked(ht[Index(hash, size, k)], chain)
      ensures j <= |chain| && p == if j < |chain| then chain[j] else null
      ensures prev == if j == 0 then null else chain[j - 1]
      ensures p != null <==> Holds(chain, k)
      ensures p != null ==> HoldsAt(chain, j, k)
    {
      prev, p, j := null, ht[Index(hash, size, k)], 0;
      while p != null
        invariant Linked(ht[Index(hash, size, k)], chain)
        invariant j <= |chain|
        invariant p == if j < |chain| then chain[j] else null
        invariant prev == if j == 0 then null else chain[j - 1]
        invariant forall i :: 0 <= i < j ==> !HoldsAt(chain, i, k)
        decreases |chain| - j
      {
        assert j < |chain| && p == chain[j];
        assert chain[j].next == After(chain, j);
        if p.key == k {
          assert HoldsAt(chain, j, k);
          return;
        }
        prev, p, j := p, p.next, j + 1;
      }
    }

    /** lookup / find. */
    method Lookup(k: K) returns (status: Status, value: V)
      requires Valid()
      ensures status == if k in M then OK else HASHNOTFOUND
      ensures k in M ==> value == M[k]
    {
      hide Linked, Stores;
      InOwnList(hash, size, chains, M, k);
      var prev, p;
      ghost var j;
      prev, p, j := Walk(k, chains[Index(hash, size, k)]);
      value := *;
      if p != null {
        return OK, p.value;
      }
      return HASHNOTFOUND, value;
    }

    /** insert: a new bucket at the head of its list, unless the key is there already. */
    method Insert(k: K, value: V) returns (status: Status)
      requires Valid()
      modifies this, ht
      ensures Valid() && fresh(Repr - old(Repr))
      ensures status == if k in old(M) then HASHTBLERROR else OK
      ensures M == if k in old(M) then old(M) else old(M)[k := value]
    {
      hide Linked, Stores;
      InOwnList(hash, size, chains, M, k);
      var prev, p;
      ghost var j;
      prev, p, j := Walk(k, chains[Index(hash, size, k)]);
      if p != null {
        return HASHTBLERROR;
      }
      Push(k, value);
      return OK;
    }

    method Push(k: K, value: V)
      requires Valid() && k !in M
      modifies this, ht
      ensures Valid() && fresh(Repr - old(Repr))
      ensures M == old(M)[k := value]
    {
      hide Stores;
      var i := Index(hash, size, k);
      ghost var chain := chains[i];
      var b := new Bucket(k, value, ht[i]);
      StoresPush(hash, size, chains, M, b);
      ht[i] := b;
      chains := chains[i := [b] + chain];
      M := M[k := value];
      Repr := Repr + {b};
      assert forall j :: 0 < j < |chains[i]| ==> chains[i][j] == chain[j - 1];
    }

    /** remove: unlinks the bucket of k. */
    method Remove(k: K) returns (status: Status)
      requires Valid()
      modifies this, ht, Repr
      ensures Valid() && fresh(Repr - old(Repr))
      ensures status == if k in old(M) then OK else HASHTBLERROR
      ensures M == old(M) - {k}
    {
      hide Linked, Stores;
      InOwnList(hash, size, chains, M, k);
      var i := Index(hash, size, k);
      var prev, p;
      ghost var j;
      prev, p, j := Walk(k, chains[i]);
      if p == null {
        return HASHTBLERROR;
      }
      Unlink(i, j, prev, p);
      return OK;
    }

    /** Takes bucket j off list i. */
    method Unlink(i: nat, ghost j: nat, prev: Bucket?<K, V>, p: Bucket<K, V>)
      requires Valid() && i < size && j < |chains[i]| && p == chains[i][j]
      requires prev == if j == 0 then null else chains[i][j - 1]
      modifies this, ht, Repr
      ensures Valid() && Repr == old(Repr)
      ensures M == old(M) - {p.key}
    {
      hide Stores, Linked;
      ghost var c := chains[i];
      StoresDrop(hash, size, chains, M, i, j);
      if prev == null {
        LinkedTail(ht[i], c);
        ht[i] := p.next;
      } else {
        BucketsApart(hash, size, chains, M, i, j - 1);
        Splice(ht[i], c, j, prev, p);
      }
      chains := chains[i := c[..j] + c[j + 1..]];
      M := M - {p.key};
      assert forall q :: 0 <= q < |chains[i]| ==> chains[i][q] == c[if q < j then q else q + 1];
      forall n | 0 <= n < size
        ensures Linked(ht[n], chains[n])
      {
        assert n != i ==> old(Linked(ht[n], chains[n]));
      }
    }
  }

  lemma LinkedTail<K, V>(head: Bucket?<K, V>, c: seq<Bucket<K, V>>)
    requires Linked(head, c) && c != []
    ensures Linked(c[0].next, c[..0] + c[1..])
  {
    assert c[..0] + c[1..] == c[1..];
    assert forall q :: 0 <= q < |c| - 1 ==> c[1..][q] == c[q + 1] && After(c[1..], q) == After(c, q + 1);
  }

  /** Relinks the bucket before position j past it. */
  method Splice<K, V>(ghost head: Bucket?<K, V>, ghost c: seq<Bucket<K, V>>, ghost j: nat, prev: Bucket<K, V>,
      p: Bucket<K, V>)
    requires Linked(head, c) && 0 < j < |c| && prev == c[j - 1] && p == c[j]
    requires forall q :: 0 <= q < |c| && q != j - 1 ==> c[q] != prev
    modifies prev
    ensures Linked(head, c[..j] + c[j + 1..])
  {
    ghost var c' := c[..j] + c[j + 1..];
    assert p.next == After(c, j);
    prev.next := p.next;
    forall q | 0 <= q < |c'|
      ensures c'[q].next == After(c', q)
    {
      assert c'[q] == c[if q < j then q else q + 1];
    }
  }
}
