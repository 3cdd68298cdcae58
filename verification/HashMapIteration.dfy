/** The iterator of the hash map, and the loops that run over it. */
module HashMapIteration {
  import opened BitMask
  import opened HashMap

  /** All nodes of the buckets from `b` on, in the order an iterator meets them. */
  ghost function Flatten<V>(chains: seq<seq<Node<V>>>, b: nat): seq<Node<V>>
    decreases |chains| - b
  {
    if b < |chains| then chains[b] + Flatten(chains, b + 1) else []
  }

  /** A position: before the first bucket, on a node, or past the last bucket. */
  ghost predicate OnAt<V>(chains: seq<seq<Node<V>>>, b: int, node: Node?<V>, at: nat) {
    && -1 <= b
    && (node != null ==> b != -1 && b < |chains| && at < |chains[b]| && chains[b][at] == node)
  }

  /** The nodes still to visit from a position. */
  ghost function RestAt<V>(chains: seq<seq<Node<V>>>, b: int, node: Node?<V>, at: nat): seq<Node<V>>
    requires OnAt(chains, b, node, at)
  {
    if node == null then Flatten(chains, b + 1) else chains[b][at + 1..] + Flatten(chains, b + 1)
  }

  class Iter<V> {
    var bucketidx: int
    var node: Node?<V>
    ghost var at: nat                 // position of `node` in its bucket

    /** edgex_map_iter_. */
    constructor ()
      ensures bucketidx == -1 && node == null
    {
      bucketidx, node, at := -1, null, 0;
    }

    ghost predicate On(chains: seq<seq<Node<V>>>)
      reads this
    {
      OnAt(chains, bucketidx, node, at)
    }

    ghost function Rest(chains: seq<seq<Node<V>>>): seq<Node<V>>
      requires On(chains)
      reads this
    {
      RestAt(chains, bucketidx, node, at)
    }

    /** edgex_map_next_: step to the first node of the rest, or report the end. */
    method Next(m: HashMap<V>) returns (r: Node?<V>)
      requires m.Valid() && On(m.chains)
      modifies this
      ensures On(m.chains) && r == node && bucketidx >= old(bucketidx)
      ensures old(Rest(m.chains)) == [] ==> r == null && Rest(m.chains) == []
      ensures old(Rest(m.chains)) != [] ==> r == old(Rest(m.chains))[0] && Rest(m.chains) == old(Rest(m.chains))[1..]
    {
      hide HashMap.Valid;
      if node != null {
        StepInBucket(m, bucketidx, at);
        RestInBucket(m.chains, bucketidx, at);
        node, at := node.next, at + 1;
        if node != null {
          return node;
        }
      }
      r := NextBucket(m);
    }

    /** The code under the label nextBucket. */
    method NextBucket(m: HashMap<V>) returns (r: Node?<V>)
      requires m.Valid() && On(m.chains) && node == null
      modifies this
      ensures On(m.chains) && r == node && bucketidx >= old(bucketidx)
      ensures old(Rest(m.chains)) == [] ==> r == null && Rest(m.chains) == []
      ensures old(Rest(m.chains)) != [] ==> r == old(Rest(m.chains))[0] && Rest(m.chains) == old(Rest(m.chains))[1..]
    {
      hide HashMap.Valid;
      ghost var rest := Rest(m.chains);
      SizeOfTable(m);
      bucketidx, at := bucketidx + 1, 0;
      while bucketidx < m.nbuckets
        invariant bucketidx > old(bucketidx) && at == 0 && node == null && rest == Flatten(m.chains, bucketidx)
        decreases m.nbuckets - bucketidx
      {
        HeadOfBucket(m, bucketidx);
        node := m.buckets[bucketidx];
        if node != null {
          assert m.chains[bucketidx] == [node] + m.chains[bucketidx][1..];
          return node;
        }
        bucketidx := bucketidx + 1;
      }
      return null;
    }
  }

  lemma RestInBucket<V>(chains: seq<seq<Node<V>>>, b: nat, at: nat)
    requires b < |chains| && at < |chains[b]|
    ensures var rest := chains[b][at + 1..] + Flatten(chains, b + 1);
      if at + 1 < |chains[b]| then
        rest != [] && rest[0] == chains[b][at + 1] && rest[1..] == chains[b][at + 2..] + Flatten(chains, b + 1)
      else rest == Flatten(chains, b + 1)
  {
  }

  lemma SizeOfTable<V>(m: HashMap<V>)
    requires m.Valid()
    ensures m.nbuckets == |m.chains| == m.buckets.Length
  {
  }

  lemma StepInBucket<V>(m: HashMap<V>, b: nat, at: nat)
    requires m.Valid() && b < |m.chains| && at < |m.chains[b]|
    ensures m.chains[b][at].next == Nth(m.chains[b], at + 1)
    ensures m.nbuckets == |m.chains|
  {
    hide BucketIndex, IsPow2, Represents, Placed;
    assert Bucket(m.buckets[b], m.chains[b], b, |m.chains|);
  }

  lemma HeadOfBucket<V>(m: HashMap<V>, b: nat)
    requires m.Valid() && b < m.nbuckets
    ensures m.nbuckets == |m.chains| == m.buckets.Length && m.buckets[b] == Nth(m.chains[b], 0)
  {
    hide BucketIndex, IsPow2, Represents, Placed;
    assert Bucket(m.buckets[b], m.chains[b], b, |m.chains|);
  }

  // ---- The rest of a fresh iterator is the whole map ----

  ghost predicate FromBucket<V>(nodes: seq<Node<V>>, stored: set<Node<V>>, b: nat, count: nat)
    requires IsPow2(count)
  {
    && (forall i :: 0 <= i < |nodes| ==> nodes[i] in stored && BucketIndex(nodes[i].hash, count) >= b)
    && (forall n :: n in stored && BucketIndex(n.hash, count) >= b ==> n in nodes)
  }

  lemma {:induction false} FlattenHolds<V>(buckets: array<Node?<V>>, chains: seq<seq<Node<V>>>, stored: set<Node<V>>,
                                           b: nat)
    requires Table(buckets, chains, stored) && 0 < |chains|
    ensures NoDuplicates(Flatten(chains, b)) && FromBucket(Flatten(chains, b), stored, b, |chains|)
    decreases |chains| - b
  {
    hide IsPow2;
    if b < |chains| {
      var rest := Flatten(chains, b + 1);
      FlattenHolds(buckets, chains, stored, b + 1);
      assert Bucket(buckets[b], chains[b], b, |chains|);
      hide Bucket, Table;
      FromBucketStep(chains[b], rest, stored, b, |chains|);
    }
  }

  lemma FromBucketStep<V>(chain: seq<Node<V>>, rest: seq<Node<V>>, stored: set<Node<V>>, b: nat, count: nat)
    requires IsPow2(count) && NoDuplicates(chain) && NoDuplicates(rest) && FromBucket(rest, stored, b + 1, count)
    requires forall i :: 0 <= i < |chain| ==> chain[i] in stored && BucketIndex(chain[i].hash, count) == b
    requires forall n :: n in stored && BucketIndex(n.hash, count) == b ==> n in chain
    ensures NoDuplicates(chain + rest) && FromBucket(chain + rest, stored, b, count)
  {
    hide BucketIndex, IsPow2;
    forall i, j | 0 <= i < |chain| && 0 <= j < |rest|
      ensures chain[i] != rest[j]
    {
    }
    ConcatWithoutDuplicates(chain, rest);
  }

  lemma ConcatWithoutDuplicates<T>(s: seq<T>, t: seq<T>)
    requires NoDuplicates(s) && NoDuplicates(t) && forall i, j :: 0 <= i < |s| && 0 <= j < |t| ==> s[i] != t[j]
    ensures NoDuplicates(s + t)
  {
  }

  lemma FreshRest<V>(m: HashMap<V>)
    requires m.Valid()
    ensures NoDuplicates(Flatten(m.chains, 0)) && Elements(Flatten(m.chains, 0)) == m.nodes
  {
    hide Table, Represents, Flatten;
    FlattenAll(m.buckets, m.chains, m.nodes);
  }

  lemma FlattenAll<V>(buckets: array<Node?<V>>, chains: seq<seq<Node<V>>>, stored: set<Node<V>>)
    requires Table(buckets, chains, stored)
    ensures NoDuplicates(Flatten(chains, 0)) && Elements(Flatten(chains, 0)) == stored
  {
    if 0 < |chains| {
      FlattenHolds(buckets, chains, stored, 0);
      hide Flatten, Table;
    } else {
      assert Elements(Flatten(chains, 0)) == {};
    }
  }

  ghost function Keys<V>(nodes: seq<Node<V>>): (r: seq<string>)
    ensures |r| == |nodes| && forall i :: 0 <= i < |nodes| ==> r[i] == nodes[i].key
  {
    seq(|nodes|, i requires 0 <= i < |nodes| => nodes[i].key)
  }

  /** The keys of a map, listed node by node, are the keys of the finite map, each once. */
  lemma KeysOfNodes<V>(nodes: seq<Node<V>>, m: map<string, V>)
    requires NoDuplicates(nodes) && Represents(Elements(nodes), m)
    ensures NoDuplicates(Keys(nodes)) && Elements(Keys(nodes)) == m.Keys && |nodes| == |m|
    ensures forall i :: 0 <= i < |nodes| ==> nodes[i].key in m && m[nodes[i].key] == nodes[i].value
  {
    hide Hash;
    forall i, j | 0 <= i < j < |nodes|
      ensures Keys(nodes)[i] != Keys(nodes)[j]
    {
      assert nodes[i] in Elements(nodes) && nodes[j] in Elements(nodes);
    }
    forall k | k in m.Keys
      ensures k in Elements(Keys(nodes))
    {
      var n :| n in Elements(nodes) && n.key == k;
      var i :| 0 <= i < |nodes| && nodes[i] == n;
      assert Keys(nodes)[i] == k;
    }
    ElementCount(nodes);
  }

  lemma {:induction false} ElementCount<T>(s: seq<T>)
    requires NoDuplicates(s)
    ensures |Elements(s)| == |s|
  {
    if s == [] {
      assert Elements(s) == {};
    } else {
      ElementsStep(s, |s| - 1);
      assert s[..|s| - 1 + 1] == s;
      ElementCount(s[..|s| - 1]);
    }
  }

  /** The loop of edgex_devmap_copydevices: a fresh iterator meets every key exactly once and then ends. */
  method AllKeys<V>(m: HashMap<V>) returns (keys: seq<string>)
    requires m.Valid()
    ensures NoDuplicates(keys) && Elements(keys) == m.M.Keys && |keys| == m.nnodes
  {
    ghost var all := Flatten(m.chains, 0);
    FreshRest(m);
    ghost var seen;
    keys, seen := KeysInOrder(m);
    hide *;
    CountOfKeys(m, seen);
  }

  method KeysInOrder<V>(m: HashMap<V>) returns (keys: seq<string>, ghost seen: seq<Node<V>>)
    requires m.Valid()
    ensures seen == Flatten(m.chains, 0) && keys == Keys(seen)
  {
    hide *;
    ghost var all := Flatten(m.chains, 0);
    var iter := new Iter();
    StartsWithAll(iter, m.chains);
    keys, seen := [], [];
    var node := iter.Next(m);
    NoKeys<V>();
    ghost var rest := iter.Rest(m.chains);
    while node != null
      invariant iter.On(m.chains) && node == iter.node && rest == iter.Rest(m.chains)
      invariant keys == Keys(seen)
      invariant all == if node == null then seen else seen + ([node] + rest)
      decreases |all| - |seen|
    {
      OneMoreNode(seen, node, rest);
      keys, seen := keys + [node.key], seen + [node];
      ghost var before := rest;
      node := iter.Next(m);
      rest := iter.Rest(m.chains);
      if node == null {
        assert seen + before == seen;
      } else {
        assert before == [node] + rest;
      }
    }
  }

  lemma StartsWithAll<V>(iter: Iter<V>, chains: seq<seq<Node<V>>>)
    requires iter.bucketidx == -1 && iter.node == null
    ensures iter.On(chains) && iter.Rest(chains) == Flatten(chains, 0)
  {
    hide Flatten;
  }

  lemma NoKeys<V>()
    ensures Keys<V>([]) == []
  {
  }

  lemma OneMoreNode<V>(nodes: seq<Node<V>>, n: Node<V>, rest: seq<Node<V>>)
    ensures Keys(nodes + [n]) == Keys(nodes) + [n.key]
    ensures nodes + ([n] + rest) == nodes + [n] + rest
  {
  }

  lemma CountOfKeys<V>(m: HashMap<V>, all: seq<Node<V>>)
    requires m.Valid() && NoDuplicates(all) && Elements(all) == m.nodes
    ensures NoDuplicates(Keys(all)) && Elements(Keys(all)) == m.M.Keys && |all| == m.nnodes
  {
    hide Table;
    KeysOfNodes(all, m.M);
  }

  // ---- Removing while iterating ----

  lemma {:induction false} FlattenTakenOut<V>(before: seq<seq<Node<V>>>, c: nat, tail: seq<Node<V>>, b: nat)
    requires c < |before| && b > c
    ensures Flatten(before[c := tail], b) == Flatten(before, b)
    decreases |before| - b
  {
    if b < |before| {
      FlattenTakenOut(before, c, tail, b + 1);
    }
  }

  lemma {:induction false} FlattenSkips<V>(chains: seq<seq<Node<V>>>, b: nat, c: nat)
    requires b <= c <= |chains|
    ensures |Flatten(chains, b)| >= |Flatten(chains, c)|
    ensures |Flatten(chains, b)| == |Flatten(chains, c)| ==> forall k :: b <= k < c ==> chains[k] == []
    ensures (forall k :: b <= k < c ==> chains[k] == []) ==> Flatten(chains, b) == Flatten(chains, c)
    decreases c - b
  {
    if b < c {
      FlattenSkips(chains, b + 1, c);
    }
  }

  lemma FlattenAt<V>(chains: seq<seq<Node<V>>>, b: nat)
    requires b < |chains|
    ensures Flatten(chains, b) == chains[b] + Flatten(chains, b + 1)
  {
  }

  /** A node that comes first in a table, with `rest` after it, heads its bucket, and the buckets before are empty. */
  lemma FirstNode<V>(chains: seq<seq<Node<V>>>, b: nat, at: nat, rest: seq<Node<V>>)
    requires b < |chains| && at < |chains[b]|
    requires rest == chains[b][at + 1..] + Flatten(chains, b + 1)
    requires |Flatten(chains, 0)| == 1 + |rest|
    ensures at == 0 && forall k :: 0 <= k < b ==> chains[k] == []
    ensures Flatten(chains[b := chains[b][1..]], 0) == rest
  {
    FlattenSkips(chains, 0, b);
    assert Flatten(chains, b) == chains[b] + Flatten(chains, b + 1);
    hide Flatten;
    assert at == 0;
    var after := chains[b := chains[b][1..]];
    FlattenTakenOut(chains, b, chains[b][1..], b + 1);
    FlattenSkips(after, 0, b);
    FlattenAt(after, b);
  }

  /** The loop of edgex_devmap_clear: `released` lists the values handed to edgex_device_release. */
  method ClearAll<V>(m: HashMap<V>) returns (visited: seq<string>, released: seq<V>)
    requires m.Valid()
    modifies m, m.buckets, m.nodes
    ensures m.Valid() && m.M == map[]
    ensures NoDuplicates(visited) && Elements(visited) == old(m.M).Keys
    ensures |released| == |visited| && forall i :: 0 <= i < |visited| ==> released[i] == old(m.M)[visited[i]]
  {
    hide HashMap.Valid;
    ghost var all := m.M;
    var iter := new Iter();
    visited, released := [], [];
    var node := iter.Next(m);
    while node != null
      invariant m.Valid() && m.buckets == old(m.buckets) && m.nodes <= old(m.nodes)
      invariant iter.On(m.chains) && node == iter.node
      invariant Flatten(m.chains, 0) == if node == null then [] else [node] + iter.Rest(m.chains)
      invariant Progress(all, m.M, visited, released)
      decreases |Flatten(m.chains, 0)|
    {
      node, visited, released := ClearOne(m, iter, node, all, visited, released);
    }
    NothingLeft(m);
  }

  /** What has been visited and what is still in the map make up the original map. */
  ghost predicate Progress<V>(all: map<string, V>, left: map<string, V>, visited: seq<string>, released: seq<V>) {
    && NoDuplicates(visited) && |released| == |visited|
    && (forall k :: k in all <==> k in left || k in visited)
    && (forall k :: k in left ==> k !in visited && left[k] == all[k])
    && (forall i :: 0 <= i < |visited| ==> released[i] == all[visited[i]])
  }

  lemma NothingLeft<V>(m: HashMap<V>)
    requires m.Valid() && Flatten(m.chains, 0) == []
    ensures m.M == map[]
  {
    FreshRest(m);
    hide Table;
  }

  method ClearOne<V>(m: HashMap<V>, iter: Iter<V>, node: Node<V>, ghost all: map<string, V>, visited0: seq<string>,
                     released0: seq<V>)
    returns (next: Node?<V>, visited: seq<string>, released: seq<V>)
    requires m.Valid() && iter.On(m.chains) && node == iter.node
    requires Flatten(m.chains, 0) == [node] + iter.Rest(m.chains)
    requires Progress(all, m.M, visited0, released0)
    modifies m, m.buckets, m.nodes, iter
    ensures m.Valid() && m.buckets == old(m.buckets) && m.nodes <= old(m.nodes)
    ensures iter.On(m.chains) && next == iter.node
    ensures Flatten(m.chains, 0) == if next == null then [] else [next] + iter.Rest(m.chains)
    ensures |Flatten(m.chains, 0)| < |old(Flatten(m.chains, 0))|
    ensures Progress(all, m.M, visited, released)
  {
    hide HashMap.Valid, NoDuplicates, OnAt, RestAt, Progress, BucketIndex, TakenOut, Flatten;
    ghost var (before, b, rest) := (m.chains, iter.bucketidx, iter.Rest(m.chains));
    Position(before, b, node, iter.at);
    CurrentNode(m, node, b, iter.at);
    FirstNode(before, b, iter.at, rest);
    var entry := m.Get(node.key);
    visited, released := visited0 + [node.key], released0 + [entry.value];
    ProgressStep(all, m.M, visited0, released0, node.key);
    next := iter.Next(m);
    ghost var removed := m.Remove(node.key);
    HeadTakenOut(before, m.chains, node, b);
    PositionAfterRemoval(before, b, iter.bucketidx, next, iter.at, rest);
    if next != null && iter.bucketidx == b {
      iter.at := iter.at - 1;
    }
  }

  /** The position reached just before a removal is still a position afterwards, with the same rest. */
  lemma PositionAfterRemoval<V>(before: seq<seq<Node<V>>>, b: nat, idx: int, next: Node?<V>, at: nat,
                                rest: seq<Node<V>>)
    requires b < |before| && before[b] != [] && rest == before[b][1..] + Flatten(before, b + 1)
    requires forall k :: 0 <= k < b ==> before[k] == []
    requires OnAt(before, idx, next, at) && idx >= b
    requires rest == if next == null then [] else [next] + RestAt(before, idx, next, at)
    requires next == null ==> RestAt(before, idx, next, at) == []
    ensures next != null && idx == b ==> at > 0
    ensures var after := before[b := before[b][1..]];
      var at' := if next != null && idx == b then at - 1 else at;
      && OnAt(after, idx, next, at')
      && Flatten(after, 0) == if next == null then [] else [next] + RestAt(after, idx, next, at')
  {
    var after := before[b := before[b][1..]];
    FlattenTakenOut(before, b, before[b][1..], b + 1);
    FlattenSkips(after, 0, b);
    assert forall k :: 0 <= k < b ==> after[k] == [];
    assert Flatten(after, 0) == rest;
    FlattenTakenOut(before, b, before[b][1..], idx + 1);
    if next != null && idx == b {
      assert |rest| == |before[b]| - 1 + |Flatten(before, b + 1)|;
    }
  }

  lemma Position<V>(chains: seq<seq<Node<V>>>, b: int, node: Node<V>, at: nat)
    requires OnAt(chains, b, node, at)
    ensures 0 <= b < |chains| && at < |chains[b]| && chains[b][at] == node
    ensures RestAt(chains, b, node, at) == chains[b][at + 1..] + Flatten(chains, b + 1)
  {
  }

  /** The node under an iterator is in the map, under its own key, and in the bucket its hash selects. */
  lemma CurrentNode<V>(m: HashMap<V>, node: Node<V>, b: nat, at: nat)
    requires m.Valid() && b < |m.chains| && at < |m.chains[b]| && m.chains[b][at] == node
    ensures node in m.nodes && node.key in m.M && m.nbuckets == |m.chains| && IsPow2(m.nbuckets)
    ensures b == BucketIndex(node.hash, m.nbuckets) && NoDuplicates(m.chains[b])
    ensures forall n :: n in m.nodes && n.key == node.key ==> n == node
  {
    hide BucketIndex, Hash, IsPow2;
    assert Bucket(m.buckets[b], m.chains[b], b, |m.chains|);
  }

  lemma HeadTakenOut<V>(before: seq<seq<Node<V>>>, after: seq<seq<Node<V>>>, n: Node<V>, b: nat)
    requires TakenOut(before, after, n, b) && before[b] != [] && before[b][0] == n && NoDuplicates(before[b])
    ensures after == before[b := before[b][1..]]
  {
    var at :| 0 <= at < |before[b]| && before[b][at] == n && after == before[b := Without(before[b], at)];
    assert at == 0;
    assert Without(before[b], 0) == before[b][1..];
  }

  lemma ProgressStep<V>(all: map<string, V>, left: map<string, V>, visited: seq<string>, released: seq<V>, key: string)
    requires Progress(all, left, visited, released) && key in left
    ensures Progress(all, left - {key}, visited + [key], released + [left[key]])
  {
  }
}
