/** The chained hash map: an array of buckets, each the head of a linked list of nodes. */
module HashMap {
  import opened BitMask

  class Node<V> {
    const hash: nat
    const key: string
    var value: V
    var next: Node?<V>

    /** edgex_map_newnode. */
    constructor (key: string, value: V)
      ensures this.hash == Hash(key) && this.key == key && this.value == value && next == null
    {
      this.hash, this.key, this.value, next := Hash(key), key, value, null;
    }
  }

  // ---- Lists of nodes ----

  /** `chain` lists the nodes reached from `head` by following `next`. */
  ghost predicate Linked<V>(head: Node?<V>, chain: seq<Node<V>>)
    reads chain`next
  {
    && head == Nth(chain, 0)
    && forall i :: 0 <= i < |chain| ==> chain[i].next == Nth(chain, i + 1)
  }

  ghost function Nth<V>(chain: seq<Node<V>>, i: nat): Node?<V> {
    if i < |chain| then chain[i] else null
  }

  ghost predicate NoDuplicates<T>(s: seq<T>) {
    forall i, j :: 0 <= i < j < |s| ==> s[i] != s[j]
  }

  /** The list of bucket `b` of `count`: linked, without repetition, and only nodes whose hash selects this bucket. */
  ghost predicate Bucket<V>(head: Node?<V>, chain: seq<Node<V>>, b: nat, count: nat)
    requires IsPow2(count)
    reads chain`next
  {
    && Linked(head, chain)
    && NoDuplicates(chain)
    && forall i :: 0 <= i < |chain| ==> BucketIndex(chain[i].hash, count) == b
  }

  /** Every bucket is such a list, and together they hold exactly the nodes in `stored`. */
  ghost predicate Table<V>(buckets: array<Node?<V>>, chains: seq<seq<Node<V>>>, stored: set<Node<V>>)
    reads buckets, stored`next
  {
    && |chains| == buckets.Length
    && (if |chains| == 0 then stored == {} else IsPow2(|chains|) && Placed(chains, stored))
    && forall b :: 0 <= b < |chains| ==> Bucket(buckets[b], chains[b], b, |chains|)
  }

  ghost predicate Placed<V>(chains: seq<seq<Node<V>>>, stored: set<Node<V>>)
    requires IsPow2(|chains|)
  {
    && (forall b, i :: 0 <= b < |chains| && 0 <= i < |chains[b]| ==> chains[b][i] in stored)
    && (forall n :: n in stored ==> n in chains[BucketIndex(n.hash, |chains|)])
  }

  lemma TableSize<V>(buckets: array<Node?<V>>, chains: seq<seq<Node<V>>>, stored: set<Node<V>>)
    requires Table(buckets, chains, stored)
    ensures |chains| == buckets.Length && (buckets.Length == 0 || IsPow2(buckets.Length))
  {
  }

  ghost function Elements<T>(s: seq<T>): set<T> {
    set x | x in s
  }

  lemma ElementsStep<T>(s: seq<T>, i: nat)
    requires i < |s| && NoDuplicates(s)
    ensures s[i] in Elements(s) && s[i] !in Elements(s[..i])
    ensures Elements(s[..i + 1]) == Elements(s[..i]) + {s[i]}
  {
    assert s[..i + 1] == s[..i] + [s[i]];
  }

  // ---- Nodes as a finite map ----

  /** The hash fields are right, and the nodes give each key of the map its value, one node per key. */
  ghost predicate Represents<V>(nodes: set<Node<V>>, m: map<string, V>)
    reads nodes`value
  {
    && (forall n :: n in nodes ==> n.hash == Hash(n.key) && n.key in m && m[n.key] == n.value)
    && (forall k :: k in m ==> exists n :: n in nodes && n.key == k)
    && (forall p, q :: p in nodes && q in nodes && p.key == q.key ==> p == q)
    && |nodes| == |m|
  }

  lemma RepresentsAdded<V>(nodes: set<Node<V>>, m: map<string, V>, n: Node<V>)
    requires Represents(nodes, m) && n !in nodes && n.hash == Hash(n.key) && n.key !in m
    ensures Represents(nodes + {n}, m[n.key := n.value])
    ensures |nodes + {n}| == |nodes| + 1
  {
    hide Hash;
  }

  lemma RepresentsRemoved<V>(nodes: set<Node<V>>, m: map<string, V>, n: Node<V>)
    requires Represents(nodes, m) && n in nodes
    ensures Represents(nodes - {n}, m - {n.key})
    ensures |nodes - {n}| == |nodes| - 1
  {
    hide Hash;
    assert (m - {n.key}).Keys == m.Keys - {n.key};
    assert |m - {n.key}| == |m| - 1;
  }

  class HashMap<V> {
    var buckets: array<Node?<V>>
    var nbuckets: nat
    var nnodes: nat
    ghost var chains: seq<seq<Node<V>>>   // the nodes of each bucket, in list order
    ghost var nodes: set<Node<V>>         // all of them
    ghost var M: map<string, V>           // the finite map they stand for

    ghost predicate Valid()
      reads this, buckets, nodes
    {
      && Table(buckets, chains, nodes)
      && Represents(nodes, M)
      && nbuckets == buckets.Length
      && nnodes == |nodes| <= nbuckets
    }

    /** edgex_map_init: all fields zero, no bucket array. */
    constructor ()
      ensures Valid() && M == map[] && fresh(buckets) && nodes == {}
    {
      buckets, nbuckets, nnodes := new Node?<V>[0], 0, 0;
      chains, nodes, M := [], {}, map[];
    }

    /** edgex_map_getref: the node with a key and its predecessor in the bucket, if it has one. */
    method GetRef(key: string) returns (prev: Node?<V>, node: Node?<V>, ghost at: nat)
      requires Valid()
      ensures node == null <==> key !in M
      ensures node != null ==>
        && node in nodes && node.key == key && node.hash == Hash(key) && M[key] == node.value && nbuckets > 0
        && var chain := chains[BucketIndex(Hash(key), nbuckets)];
           at < |chain| && chain[at] == node && prev == if at == 0 then null else chain[at - 1]
    {
      prev, node, at := null, null, 0;
      if nbuckets > 0 {
        var hash := Hash(key);
        var b := BucketIndex(hash, nbuckets);
        assert Bucket(buckets[b], chains[b], b, nbuckets);
        prev, node, at := FindInBucket(buckets[b], chains[b], hash, key);
        KeyIsInItsBucket(chains, nodes, M, key, at);
      } else {
        assert |M| == 0;
      }
    }

    /** edgex_map_get_. */
    method Get(key: string) returns (node: Node?<V>)
      requires Valid()
      ensures node == null <==> key !in M
      ensures node != null ==> node in nodes && node.key == key && node.value == M[key]
    {
      hide Valid;
      ghost var at;
      var prev;
      prev, node, at := GetRef(key);
    }

    /** edgex_map_resize. When realloc fails the old array stays, emptied and refilled like a new one. */
    method Resize(count: nat, reallocSucceeds: bool) returns (ok: bool)
      requires Table(buckets, chains, nodes) && nbuckets == buckets.Length && IsPow2(count)
      modifies this`buckets, this`nbuckets, this`chains, buckets, nodes`next
      ensures ok == reallocSucceeds
      ensures nbuckets == buckets.Length == if ok then count else old(nbuckets)
      ensures buckets == old(buckets) || fresh(buckets)
      ensures Table(buckets, chains, nodes)
    {
      var head;
      ghost var pool;
      head, pool := ChainAll(buckets, chains, nodes);
      if reallocSucceeds {
        Pow2Positive(count);
        buckets, nbuckets := new Node?<V>[count], count;
      }
      forall b | 0 <= b < nbuckets {
        buckets[b] := null;
      }
      chains := AddAll(buckets, head, pool, nodes);
      return reallocSucceeds;
    }

    /** edgex_map_set_: true on success; on a failed malloc or realloc, false with the contents untouched. */
    method Set(key: string, value: V, mallocSucceeds: bool, reallocSucceeds: bool) returns (ok: bool)
      requires Valid()
      modifies this, buckets, nodes
      ensures Valid() && (buckets == old(buckets) || fresh(buckets)) && fresh(nodes - old(nodes)) && old(nodes) <= nodes
      ensures M == if ok then old(M)[key := value] else old(M)
      ensures ok <==> key in old(M) || (mallocSucceeds && (old(nnodes) < old(nbuckets) || reallocSucceeds))
    {
      hide Valid, Hash;
      var found := Replace(key, value);
      if found {
        return true;
      }
      if !mallocSucceeds {
        return false;
      }
      var node := new Node(key, value);
      ok := EnsureRoom(reallocSucceeds);
      if ok {
        Insert(node);
      }
    }

    /** The start of edgex_map_set_: overwrite the value of an existing key. */
    method Replace(key: string, value: V) returns (found: bool)
      requires Valid()
      modifies this`M, nodes`value
      ensures Valid() && found == (key in old(M))
      ensures M == if found then old(M)[key := value] else old(M)
    {
      hide Hash, Table;
      ghost var at;
      var prev, existing;
      prev, existing, at := GetRef(key);
      found := existing != null;
      if found {
        hide BucketIndex, IsPow2;
        existing.value := value;
        M := M[key := value];
        assert M.Keys == old(M).Keys && |M| == |M.Keys| && |old(M)| == |old(M).Keys|;
        assert forall k :: k in M ==> k in old(M);
      }
    }

    /** Grow when there are as many nodes as buckets. */
    method EnsureRoom(reallocSucceeds: bool) returns (ok: bool)
      requires Valid()
      modifies this`buckets, this`nbuckets, this`chains, buckets, nodes`next
      ensures Valid() && (buckets == old(buckets) || fresh(buckets))
      ensures ok <==> old(nnodes) < old(nbuckets) || reallocSucceeds
      ensures ok ==> nnodes < nbuckets
    {
      hide Represents, Table, IsPow2;
      ok := true;
      if nnodes >= nbuckets {
        TableSize(buckets, chains, nodes);
        DoubleIsPow2(nbuckets);
        ok := Resize(if nbuckets > 0 then nbuckets * 2 else 1, reallocSucceeds);
      }
    }

    /** The end of edgex_map_set_: a new node goes into its bucket and is counted. */
    method Insert(node: Node<V>)
      requires Valid() && nnodes < nbuckets && node !in nodes && node.hash == Hash(node.key) && node.key !in M
      modifies this`chains, this`nodes, this`nnodes, this`M, buckets, node`next
      ensures Valid() && M == old(M)[node.key := node.value] && nodes == old(nodes) + {node}
        && node.value == old(node.value)
    {
      hide Table, Hash, Represents;
      RepresentsAdded(nodes, M, node);
      chains := AddNode(buckets, chains, nodes, node);
      nodes := nodes + {node};
      nnodes := nnodes + 1;
      M := M[node.key := node.value];
    }

    /** edgex_map_remove_. The ghost result is the removed node, if any. */
    method Remove(key: string) returns (ghost removed: Node?<V>)
      requires Valid()
      modifies this`chains, this`nodes, this`nnodes, this`M, buckets, nodes`next
      ensures Valid() && M == old(M) - {key} && nbuckets == old(nbuckets)
      ensures removed == null <==> key !in old(M)
      ensures removed == null ==> nodes == old(nodes) && chains == old(chains)
      ensures removed != null ==>
        && removed in old(nodes) && removed.key == key && nodes == old(nodes) - {removed}
        && nbuckets == |old(chains)| && TakenOut(old(chains), chains, removed, BucketIndex(removed.hash, nbuckets))
    {
      hide Hash, Represents, Table;
      ghost var at;
      var prev, node;
      prev, node, at := GetRef(key);
      removed := node;
      if node != null {
        RepresentsRemoved(nodes, M, node);
        TableSize(buckets, chains, nodes);
        chains := Unlink(buckets, chains, nodes, prev, node, at);
        nodes := nodes - {node};
        nnodes := nnodes - 1;
        M := M - {key};
      } else {
        assert M - {key} == M;
      }
    }
  }

  ghost function Without<T>(s: seq<T>, i: nat): seq<T>
    requires i < |s|
  {
    s[..i] + s[i + 1..]
  }

  lemma WithoutElements<T>(s: seq<T>, i: nat)
    requires i < |s| && NoDuplicates(s)
    ensures NoDuplicates(Without(s, i))
    ensures forall x :: x in Without(s, i) <==> x in s && x != s[i]
  {
    var t := Without(s, i);
    assert forall k :: 0 <= k < |t| ==> t[k] == s[if k < i then k else k + 1];
    forall x | x in s && x != s[i]
      ensures x in t
    {
      var k :| 0 <= k < |s| && s[k] == x;
      assert t[if k < i then k else k - 1] == x;
    }
  }

  /** `after` is `before` with the node `n` taken out of bucket `b`. */
  ghost predicate TakenOut<V>(before: seq<seq<Node<V>>>, after: seq<seq<Node<V>>>, n: Node<V>, b: nat) {
    b < |before|
      && exists at :: 0 <= at < |before[b]| && before[b][at] == n && after == before[b := Without(before[b], at)]
  }

  /** The relinking step of edgex_map_remove_. */
  method Unlink<V>(buckets: array<Node?<V>>, ghost chains: seq<seq<Node<V>>>, ghost stored: set<Node<V>>,
                   prev: Node?<V>, node: Node<V>, ghost at: nat)
    returns (ghost chains': seq<seq<Node<V>>>)
    requires Table(buckets, chains, stored) && buckets.Length > 0
    requires var chain := chains[BucketIndex(node.hash, buckets.Length)];
      at < |chain| && chain[at] == node && prev == if at == 0 then null else chain[at - 1]
    modifies buckets, stored`next
    ensures Table(buckets, chains', stored - {node})
      && TakenOut(chains, chains', node, BucketIndex(node.hash, buckets.Length))
  {
    hide NoDuplicates, Linked;
    var b := BucketIndex(node.hash, buckets.Length);
    EachInItsBucket(buckets, chains, stored);
    PlacedRemoved(chains, stored, b, at);
    chains' := chains[b := Without(chains[b], at)];
    assert prev != null ==> prev in stored;
    hide BucketIndex, IsPow2, Without, Placed, Bucket;
    UnlinkInArray(buckets, chains, b, prev, node, at);
  }

  method UnlinkInArray<V>(buckets: array<Node?<V>>, ghost chains: seq<seq<Node<V>>>, b: nat,
                          prev: Node?<V>, node: Node<V>, ghost at: nat)
    requires |chains| == buckets.Length && b < |chains| && IsPow2(|chains|)
    requires forall c :: 0 <= c < |chains| ==> Bucket(buckets[c], chains[c], c, |chains|)
    requires at < |chains[b]| && chains[b][at] == node && prev == if at == 0 then null else chains[b][at - 1]
    modifies buckets, (if prev == null then {} else {prev})`next
    ensures forall c :: 0 <= c < |chains| ==>
      Bucket(buckets[c], if c == b then Without(chains[b], at) else chains[c], c, |chains|)
  {
    hide BucketIndex, IsPow2, Without;
    assert prev != null ==> BucketIndex(prev.hash, |chains|) == b;
    var head := UnlinkInBucket(buckets[b], chains[b], prev, node, at, b, |chains|);
    buckets[b] := head;
  }

  /** On one bucket; its new head is the old one unless the first node goes. */
  method UnlinkInBucket<V>(head: Node?<V>, ghost chain: seq<Node<V>>, prev: Node?<V>, node: Node<V>, ghost at: nat,
                           ghost b: nat, ghost count: nat)
    returns (newHead: Node?<V>)
    requires IsPow2(count) && Bucket(head, chain, b, count)
    requires at < |chain| && chain[at] == node && prev == if at == 0 then null else chain[at - 1]
    modifies (if prev == null then {} else {prev})`next
    ensures Bucket(newHead, Without(chain, at), b, count)
  {
    hide BucketIndex, IsPow2;
    WithoutElements(chain, at);
    newHead := head;
    if prev == null {
      newHead := node.next;
    } else {
      prev.next := node.next;
    }
    assert Linked(newHead, Without(chain, at));
    assert NoDuplicates(Without(chain, at));
    hide Without, Linked, NoDuplicates;
    forall i | 0 <= i < |Without(chain, at)|
      ensures BucketIndex(Without(chain, at)[i].hash, count) == b
    {
      assert Without(chain, at)[i] in Without(chain, at);
    }
  }

  lemma EachInItsBucket<V>(buckets: array<Node?<V>>, chains: seq<seq<Node<V>>>, stored: set<Node<V>>)
    requires Table(buckets, chains, stored) && |chains| > 0
    ensures forall c, i :: 0 <= c < |chains| && 0 <= i < |chains[c]| ==> BucketIndex(chains[c][i].hash, |chains|) == c
  {
    hide BucketIndex, IsPow2;
    forall c, i | 0 <= c < |chains| && 0 <= i < |chains[c]|
      ensures BucketIndex(chains[c][i].hash, |chains|) == c
    {
      assert Bucket(buckets[c], chains[c], c, |chains|);
    }
  }

  lemma PlacedRemoved<V>(chains: seq<seq<Node<V>>>, stored: set<Node<V>>, b: nat, at: nat)
    requires IsPow2(|chains|) && Placed(chains, stored) && b < |chains| && at < |chains[b]|
    requires BucketIndex(chains[b][at].hash, |chains|) == b && NoDuplicates(chains[b])
    requires forall c, i :: 0 <= c < |chains| && 0 <= i < |chains[c]| ==> BucketIndex(chains[c][i].hash, |chains|) == c
    ensures Placed(chains[b := Without(chains[b], at)], stored - {chains[b][at]})
  {
    hide IsPow2, BucketIndex;
    WithoutElements(chains[b], at);
    var after := chains[b := Without(chains[b], at)];
    hide Without;
    forall c, i | 0 <= c < |after| && 0 <= i < |after[c]|
      ensures after[c][i] in stored - {chains[b][at]}
    {
      if c == b {
        assert after[b][i] in Without(chains[b], at);
      }
    }
  }

  /** The loop of edgex_map_getref over one bucket. */
  method FindInBucket<V>(head: Node?<V>, ghost chain: seq<Node<V>>, hash: nat, key: string)
    returns (prev: Node?<V>, node: Node?<V>, ghost at: nat)
    requires Linked(head, chain)
    ensures at <= |chain| && node == Nth(chain, at) && prev == if at == 0 then null else chain[at - 1]
    ensures at < |chain| ==> chain[at].hash == hash && chain[at].key == key
    ensures at == |chain| ==> forall i :: 0 <= i < |chain| ==> chain[i].hash != hash || chain[i].key != key
  {
    prev, node, at := null, head, 0;
    while node != null
      invariant at <= |chain| && node == Nth(chain, at)
      invariant prev == if at == 0 then null else chain[at - 1]
      invariant forall i :: 0 <= i < at ==> chain[i].hash != hash || chain[i].key != key
      decreases |chain| - at
    {
      if node.hash == hash && node.key == key {
        return;
      }
      prev, node, at := node, node.next, at + 1;
    }
  }

  /** A search of the bucket a key selects decides whether the map holds the key. */
  lemma KeyIsInItsBucket<V>(chains: seq<seq<Node<V>>>, nodes: set<Node<V>>, m: map<string, V>, key: string, at: nat)
    requires IsPow2(|chains|) && Placed(chains, nodes) && Represents(nodes, m)
    requires var chain := chains[BucketIndex(Hash(key), |chains|)];
      && at <= |chain|
      && (at < |chain| ==> chain[at].key == key)
      && (at == |chain| ==> forall i :: 0 <= i < |chain| ==> chain[i].hash != Hash(key) || chain[i].key != key)
    ensures var chain := chains[BucketIndex(Hash(key), |chains|)];
      if at < |chain| then chain[at] in nodes && key in m && m[key] == chain[at].value else key !in m
  {
    hide Hash, IsPow2;
    var b := BucketIndex(Hash(key), |chains|);
    hide BucketIndex;
  }

  // ---- Moving nodes between lists ----

  /** edgex_map_addnode: push a node on the front of the bucket its hash selects. */
  method AddNode<V>(buckets: array<Node?<V>>, ghost chains: seq<seq<Node<V>>>, ghost stored: set<Node<V>>, n: Node<V>)
    returns (ghost chains': seq<seq<Node<V>>>)
    requires buckets.Length > 0 && Table(buckets, chains, stored) && n !in stored
    modifies buckets, n`next
    ensures Table(buckets, chains', stored + {n})
  {
    var b := BucketIndex(n.hash, buckets.Length);
    hide BucketIndex, IsPow2, Placed, NoDuplicates;
    n.next := buckets[b];
    buckets[b] := n;
    chains' := chains[b := [n] + chains[b]];
    NotYet(chains, stored, n);
    PlacedWith(chains, stored, n, b);
    forall c | 0 <= c < |chains| && c != b
      ensures Bucket(buckets[c], chains'[c], c, |chains|)
    {
      assert old(Bucket(buckets[c], chains[c], c, |chains|));
    }
    InFront(n, chains[b]);
    assert old(Bucket(buckets[b], chains[b], b, |chains|));
  }

  lemma InFront<T>(x: T, s: seq<T>)
    requires forall i :: 0 <= i < |s| ==> s[i] != x
    ensures NoDuplicates(s) ==> NoDuplicates([x] + s)
    ensures forall i :: 0 < i < |[x] + s| ==> ([x] + s)[i] == s[i - 1]
  {
  }

  lemma NotYet<V>(chains: seq<seq<Node<V>>>, stored: set<Node<V>>, n: Node<V>)
    requires IsPow2(|chains|) && Placed(chains, stored) && n !in stored
    ensures forall c, i :: 0 <= c < |chains| && 0 <= i < |chains[c]| ==> chains[c][i] != n
  {
  }

  lemma PlacedWith<V>(chains: seq<seq<Node<V>>>, stored: set<Node<V>>, n: Node<V>, b: nat)
    requires IsPow2(|chains|) && Placed(chains, stored) && b == BucketIndex(n.hash, |chains|)
    ensures Placed(chains[b := [n] + chains[b]], stored + {n})
  {
    hide BucketIndex, IsPow2;
  }

  /** The first half of edgex_map_resize: unlink every node from its bucket into one long list. */
  method ChainAll<V>(buckets: array<Node?<V>>, ghost chains: seq<seq<Node<V>>>, ghost stored: set<Node<V>>)
    returns (head: Node?<V>, ghost pool: seq<Node<V>>)
    requires Table(buckets, chains, stored)
    modifies stored`next
    ensures Linked(head, pool) && NoDuplicates(pool) && Elements(pool) == stored
  {
    hide BucketIndex, IsPow2;
    head, pool := null, [];
    var i := buckets.Length;
    while i > 0
      invariant 0 <= i <= |chains|
      invariant Linked(head, pool) && NoDuplicates(pool)
      invariant forall n :: n in pool <==> n in stored && BucketIndex(n.hash, |chains|) >= i
      invariant forall b :: 0 <= b < i ==> Bucket(buckets[b], chains[b], b, |chains|)
      decreases i
    {
      i := i - 1;
      assert Bucket(buckets[i], chains[i], i, |chains|);
      forall b | 0 <= b < i
        ensures forall n :: n in chains[b] ==> n !in chains[i]
      {
        BucketsApart(buckets, chains, b, i);
      }
      NodesOfBucket(buckets[i], chains, stored, i);
      head, pool := MoveAll(buckets[i], chains[i], head, pool);
    }
  }

  lemma BucketsApart<V>(buckets: array<Node?<V>>, chains: seq<seq<Node<V>>>, b: nat, c: nat)
    requires buckets.Length == |chains| && b < c < |chains| && IsPow2(|chains|)
    requires Bucket(buckets[b], chains[b], b, |chains|) && Bucket(buckets[c], chains[c], c, |chains|)
    ensures forall n :: n in chains[b] ==> n !in chains[c]
  {
    hide IsPow2, BucketIndex;
  }

  /** A bucket holds exactly the stored nodes that select it. */
  lemma NodesOfBucket<V>(head: Node?<V>, chains: seq<seq<Node<V>>>, stored: set<Node<V>>, b: nat)
    requires b < |chains| && IsPow2(|chains|) && Placed(chains, stored) && Bucket(head, chains[b], b, |chains|)
    ensures forall n :: n in chains[b] <==> n in stored && BucketIndex(n.hash, |chains|) == b
  {
    hide IsPow2, BucketIndex;
  }

  /** Move the nodes of one list, one by one, to the front of another. */
  method MoveAll<V>(from: Node?<V>, ghost chain: seq<Node<V>>, onto: Node?<V>, ghost base: seq<Node<V>>)
    returns (head: Node?<V>, ghost pool: seq<Node<V>>)
    requires Linked(from, chain) && NoDuplicates(chain)
    requires Linked(onto, base) && NoDuplicates(base)
    requires forall n :: n in chain ==> n !in base
    modifies (set n | n in chain)`next
    ensures Linked(head, pool) && NoDuplicates(pool)
    ensures forall n :: n in pool <==> n in base || n in chain
  {
    head, pool := onto, base;
    var node := from;
    ghost var done := 0;
    while node != null
      invariant done <= |chain| && node == Nth(chain, done)
      invariant forall i :: done <= i < |chain| ==> chain[i].next == Nth(chain, i + 1)
      invariant Linked(head, pool) && NoDuplicates(pool)
      invariant forall n :: n in pool <==> n in base || n in chain[..done]
      decreases |chain| - done
    {
      var next := node.next;
      assert node == chain[done] && node !in chain[..done] && node !in pool;
      node.next := head;
      head, pool := node, [node] + pool;
      node, done := next, done + 1;
    }
    assert chain[..done] == chain;
  }

  lemma EmptyTable<V>(buckets: array<Node?<V>>, chains: seq<seq<Node<V>>>)
    requires buckets.Length == 0 || IsPow2(buckets.Length)
    requires forall b :: 0 <= b < buckets.Length ==> buckets[b] == null
    requires |chains| == buckets.Length && forall b :: 0 <= b < |chains| ==> chains[b] == []
    ensures Table(buckets, chains, {})
  {
  }

  /** The second half: put every node of the list back into a bucket. */
  method AddAll<V>(buckets: array<Node?<V>>, head: Node?<V>, ghost pool: seq<Node<V>>, ghost stored: set<Node<V>>)
    returns (ghost chains: seq<seq<Node<V>>>)
    requires (if buckets.Length == 0 then stored == {} else IsPow2(buckets.Length))
    requires forall b :: 0 <= b < buckets.Length ==> buckets[b] == null
    requires Linked(head, pool) && NoDuplicates(pool) && Elements(pool) == stored
    modifies buckets, stored`next
    ensures Table(buckets, chains, stored)
  {
    chains := seq(buckets.Length, b => []);
    EmptyTable(buckets, chains);
    hide Table, BucketIndex, IsPow2, Elements, NoDuplicates;
    var node := head;
    ghost var done := 0;
    ElementsOfNone(pool);
    while node != null
      invariant done <= |pool| && node == Nth(pool, done)
      invariant forall i :: done <= i < |pool| ==> pool[i].next == Nth(pool, i + 1)
      invariant Table(buckets, chains, Elements(pool[..done]))
      decreases |pool| - done
    {
      var next := node.next;
      ElementsStep(pool, done);
      DistinctFrom(pool, done);
      chains := AddNode(buckets, chains, Elements(pool[..done]), node);
      node, done := next, done + 1;
    }
    assert pool[..done] == pool;
  }

  lemma ElementsOfNone<T>(s: seq<T>)
    ensures Elements(s[..0]) == {}
  {
  }

  lemma DistinctFrom<T>(s: seq<T>, i: nat)
    requires NoDuplicates(s) && i < |s|
    ensures forall k :: i < k < |s| ==> s[k] != s[i]
  {
  }
}
