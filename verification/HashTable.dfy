/** The chained hash table (util/hash.c). */
module HashTable {
  import opened Common

  class Bucket<K, V> {
    const key: K
    const value: V
    var next: Bucket?<K, V>

    constructor (key: K, value: V, next: Bucket?<K, V>)
      ensures this.key == key && this.value == value && this.next == next
    {
      this.key, this.value, this.next := key, value, next;
    }
  }

  /** The nodes c hang together from b on. */
  ghost predicate Linked<K, V>(b: Bucket?<K, V>, c: seq<Bucket<K, V>>)
    reads c
  {
    (if c == [] then b == null else b == c[0] && c[|c| - 1].next == null) &&
    (forall k :: 0 <= k < |c| - 1 ==> c[k].next == c[k + 1]) &&
    (forall k, m :: 0 <= k < m < |c| ==> c[k] != c[m])
  }

  /** The nodes of a chain belong to bucket i. */
  ghost predicate Homed<K, V>(c: seq<Bucket<K, V>>, nodes: set<Bucket<K, V>>, hash: K -> nat, size: nat, i: nat)
    requires 0 < size
  {
    forall k :: 0 <= k < |c| ==> c[k] in nodes && hash(c[k].key) % size == i
  }

  /** Bucket i holds the chain c. */
  ghost predicate Holds<K, V>(b: Bucket?<K, V>, c: seq<Bucket<K, V>>, nodes: set<Bucket<K, V>>, hash: K -> nat,
                              size: nat, i: nat)
    requires 0 < size
    reads nodes
  {
    Homed(c, nodes, hash, size, i) && Linked(b, c)
  }

  lemma LinkedCons<K, V>(node: Bucket<K, V>, b: Bucket?<K, V>, c: seq<Bucket<K, V>>)
    requires Linked(b, c) && node !in c && node.next == b
    ensures Linked(node, [node] + c)
  {
    var d := [node] + c;
    forall k | 0 <= k < |d| - 1
      ensures d[k].next == d[k + 1]
    {
      if k > 0 {
        assert c[k - 1].next == c[k];
      }
    }
  }

  /** The chain c once its node j is skipped. */
  lemma LinkedSkip<K, V>(b: Bucket?<K, V>, c: seq<Bucket<K, V>>, j: nat)
    requires j < |c| && (forall k, m :: 0 <= k < m < |c| ==> c[k] != c[m])
    requires forall k :: 0 <= k < |c| - 1 && k != j - 1 ==> c[k].next == c[k + 1]
    requires j < |c| - 1 ==> c[|c| - 1].next == null
    requires (if j == 0 then b else c[j - 1].next) == if j + 1 < |c| then c[j + 1] else null
    requires j > 0 ==> b == c[0]
    ensures Linked(b, Without(c, j))
  {
    var d := Without(c, j);
    forall k | 0 <= k < |d|
      ensures d[k] == c[if k < j then k else k + 1]
    {
    }
  }

  /** The pairs of a chain, the latest first. */
  function Pairs<K, V>(c: seq<Bucket<K, V>>): (r: seq<(K, V)>)
    ensures |r| == |c|
  {
    seq(|c|, i requires 0 <= i < |c| => (c[i].key, c[i].value))
  }

  /** The values stored under k, the latest first. */
  function Values<K(==), V>(ps: seq<(K, V)>, k: K): seq<V> {
    if ps == [] then [] else if ps[0].0 == k then [ps[0].1] + Values(ps[1..], k) else Values(ps[1..], k)
  }

  /** The position of the first pair with key k, or the end. */
  function Find<K(==), V>(ps: seq<(K, V)>, k: K): (i: nat)
    ensures i <= |ps| && (i < |ps| ==> ps[i].0 == k) && forall j :: 0 <= j < i ==> ps[j].0 != k
  {
    if ps == [] || ps[0].0 == k then 0 else 1 + Find(ps[1..], k)
  }

  function Without<T>(s: seq<T>, i: nat): seq<T> {
    if i < |s| then s[..i] + s[i + 1..] else s
  }

  function Top<V>(st: seq<V>): Option<V> { if st == [] then None else Some(st[0]) }

  function Pop<V>(st: seq<V>): seq<V> { if st == [] then [] else st[1..] }

  /** The first pair with a key holds the top of its stack. */
  lemma {:induction false} FindTop<K, V>(ps: seq<(K, V)>, k: K)
    ensures Top(Values(ps, k)) == if Find(ps, k) < |ps| then Some(ps[Find(ps, k)].1) else None
    decreases |ps|
  {
    if ps != [] && ps[0].0 != k {
      FindTop(ps[1..], k);
    }
  }

  lemma ValuesSkip<K, V>(p: (K, V), ps: seq<(K, V)>, q: K)
    ensures Values([p] + ps, q) == if p.0 == q then [p.1] + Values(ps, q) else Values(ps, q)
  {
    assert ([p] + ps)[1..] == ps;
  }

  lemma WithoutNext<T>(s: seq<T>, i: nat)
    requires s != []
    ensures Without(s, 1 + i) == [s[0]] + Without(s[1..], i)
  {
    if 1 + i < |s| {
      assert s[..1 + i] == [s[0]] + s[1..][..i] && s[1 + i + 1..] == s[1..][i + 1..];
    }
  }

  lemma {:induction false} ValuesPop<K, V>(ps: seq<(K, V)>, k: K, q: K)
    ensures Values(Without(ps, Find(ps, k)), q) == if q == k then Pop(Values(ps, q)) else Values(ps, q)
    decreases |ps|
  {
    if ps != [] {
      var rest := ps[1..];
      if ps[0].0 == k {
        assert Without(ps, 0) == rest;
      } else {
        var i := Find(rest, k);
        ValuesPop(rest, k, q);
        WithoutNext(ps, i);
        ValuesSkip(ps[0], Without(rest, i), q);
      }
    }
  }

  lemma {:induction false} ValuesPlus<K, V>(a: seq<(K, V)>, b: seq<(K, V)>, k: K)
    ensures Values(a + b, k) == Values(a, k) + Values(b, k)
    decreases |a|
  {
    if a == [] {
      assert a + b == b;
    } else {
      ValuesPlus(a[1..], b, k);
      assert (a + b)[1..] == a[1..] + b;
    }
  }

  /** All pairs of the first n buckets. */
  function Flat<K, V>(v: seq<seq<(K, V)>>, n: nat): seq<(K, V)>
    requires n <= |v|
  {
    if n == 0 then [] else Flat(v, n - 1) + v[n - 1]
  }

  lemma {:induction false} FlatAt<K, V>(v: seq<seq<(K, V)>>, n: nat, i: nat, j: nat)
    requires i < n <= |v| && j < |v[i]|
    ensures |Flat(v, i)| + j < |Flat(v, n)| && Flat(v, n)[|Flat(v, i)| + j] == v[i][j]
    decreases n
  {
    if i + 1 < n {
      FlatAt(v, n - 1, i, j);
    }
  }

  ghost predicate Lacks<K, V>(ps: seq<(K, V)>, k: K) {
    forall i :: 0 <= i < |ps| ==> ps[i].0 != k
  }

  lemma {:induction false} NoValues<K, V>(ps: seq<(K, V)>, k: K)
    requires Lacks(ps, k)
    ensures Values(ps, k) == []
    decreases |ps|
  {
    if ps != [] {
      NoValues(ps[1..], k);
    }
  }

  /** If only bucket b holds key k. */
  lemma {:induction false} OnlyHere<K, V>(v: seq<seq<(K, V)>>, b: nat, k: K, n: nat)
    requires b < |v| && n <= |v| && forall i {:trigger Lacks(v[i], k)} :: 0 <= i < |v| && i != b ==> Lacks(v[i], k)
    ensures Values(Flat(v, n), k) == if b < n then Values(v[b], k) else []
    decreases n
  {
    if n > 0 {
      OnlyHere(v, b, k, n - 1);
      var x, y := Values(Flat(v, n - 1), k), Values(v[n - 1], k);
      ValuesPlus(Flat(v, n - 1), v[n - 1], k);
      if n - 1 != b {
        assert Lacks(v[n - 1], k);
        NoValues(v[n - 1], k);
        assert x + [] == x;
      } else {
        assert [] + y == y;
      }
    }
  }

  class Table<K(==, !new), V> {
    const hash: K -> nat
    const buckets: array<Bucket?<K, V>>
    ghost var chains: seq<seq<Bucket<K, V>>>
    ghost var nodes: set<Bucket<K, V>>

    ghost predicate Valid()
      reads this, buckets, nodes
    {
      0 < buckets.Length == |chains| &&
      forall i {:trigger Holds(buckets[i], chains[i], nodes, hash, |chains|, i)} :: 0 <= i < |chains| ==>
        Holds(buckets[i], chains[i], nodes, hash, |chains|, i)
    }

    /** The pairs of each bucket. */
    ghost function View(): (v: seq<seq<(K, V)>>)
      reads this
      ensures |v| == |chains|
    {
      seq(|chains|, i requires 0 <= i < |chains| reads this => Pairs(chains[i]))
    }

    /** The values stored under a key, the latest first. */
    ghost function Stack(k: K): seq<V>
      reads this
      requires |chains| == buckets.Length > 0
    {
      Values(View()[Place(k)], k)
    }

    /** The pairs in the order of iteration. */
    ghost function All(): seq<(K, V)>
      reads this
    {
      Flat(View(), |chains|)
    }

    /** An iterator that has yielded n pairs: it holds the last of them, or the next
        bucket to look at. */
    ghost predicate Stands(i: nat, p: Bucket?<K, V>, n: nat)
      reads this
    {
      i <= |chains| &&
      if p == null then n == |Flat(View(), i)|
      else exists j :: i < |chains| && 0 <= j < |chains[i]| && p == chains[i][j] && n == |Flat(View(), i)| + j + 1
    }

    /** hash_new. */
    constructor (size: nat, hash: K -> nat)
      requires 0 < size
      ensures Valid() && this.hash == hash && fresh(buckets) && fresh(nodes)
      ensures View() == seq(size, _ => [])
    {
      this.hash := hash;
      buckets := new Bucket?<K, V>[size](_ => null);
      chains := seq(size, _ => []);
      nodes := {};
    }

    function Place(k: K): (b: nat)
      requires 0 < buckets.Length
      ensures b < buckets.Length
    {
      hash(k) % buckets.Length
    }

    /** hash_setn: the value goes on top. */
    method Set(k: K, v: V)
      requires Valid()
      modifies this, buckets
      ensures Valid() && fresh(nodes - old(nodes))
      ensures View() == old(View())[Place(k) := [(k, v)] + old(View())[Place(k)]]
      ensures forall q :: Stack(q) == if q == k then [v] + old(Stack(k)) else old(Stack(q))
    {
      var b := Place(k);
      ghost var cs, ns := chains, nodes;
      assert Holds(buckets[b], cs[b], ns, hash, |cs|, b);
      var node := new Bucket(k, v, buckets[b]);
      LinkedCons(node, buckets[b], cs[b]);
      buckets[b] := node;
      chains, nodes := cs[b := [node] + cs[b]], ns + {node};
      forall i | 0 <= i < |chains|
        ensures Holds(buckets[i], chains[i], nodes, hash, |chains|, i)
      {
        assert i != b ==> old(Holds(buckets[i], chains[i], nodes, hash, |chains|, i));
      }
      assert Pairs([node] + cs[b]) == [(k, v)] + Pairs(cs[b]);
      forall q
        ensures Stack(q) == if q == k then [v] + old(Stack(k)) else old(Stack(q))
      {
        ValuesSkip((k, v), Pairs(cs[b]), q);
      }
    }

    /** hash_getn: the value on top, if there is one. */
    method Get(k: K) returns (r: Option<V>)
      requires Valid()
      ensures r == Top(Stack(k))
    {
      var b := Place(k);
      ghost var c, j := chains[b], 0;
      assert Holds(buckets[b], c, nodes, hash, |chains|, b);
      FindTop(Pairs(c), k);
      var hb := buckets[b];
      while hb != null
        invariant 0 <= j <= |c| && (if j < |c| then hb == c[j] else hb == null)
        invariant forall m :: 0 <= m < j ==> c[m].key != k
        decreases |c| - j
      {
        if hb.key == k {
          FindIs(Pairs(c), k, j);
          return Some(hb.value);
        }
        hb, j := hb.next, j + 1;
      }
      FindIs(Pairs(c), k, j);
      r := None;
    }

    /** The loop of hash_iterate: the first pair from bucket i0 on. */
    method Scan(i0: nat, ghost n: nat) returns (r: Option<(K, V)>, i: nat, p: Bucket?<K, V>)
      requires Valid() && i0 <= |chains| && n == |Flat(View(), i0)|
      ensures n <= |All()|
      ensures if n < |All()| then r == Some(All()[n]) && Stands(i, p, n + 1) else r == None && Stands(i, p, n)
    {
      r, i, p := None, i0, null;
      while i < buckets.Length
        invariant i <= |chains| && n == |Flat(View(), i)|
      {
        assert Holds(buckets[i], chains[i], nodes, hash, |chains|, i);
        if buckets[i] != null {
          FlatAt(View(), |chains|, i, 0);
          p := buckets[i];
          r := Some((p.key, p.value));
          return;
        }
        i := i + 1;
      }
    }

    /** hash_iterate: one pair more, in the order of All, until none is left. */
    method Iterate(i0: nat, p0: Bucket?<K, V>, ghost n: nat) returns (r: Option<(K, V)>, i: nat, p: Bucket?<K, V>)
      requires Valid() && Stands(i0, p0, n)
      ensures n <= |All()|
      ensures if n < |All()| then r == Some(All()[n]) && Stands(i, p, n + 1) else r == None && Stands(i, p, n)
    {
      if i0 >= buckets.Length {
        return None, i0, p0;
      }
      i := i0;
      if p0 != null {
        ghost var j :| 0 <= j < |chains[i]| && p0 == chains[i][j] && n == |Flat(View(), i)| + j + 1;
        ghost var c := chains[i];
        assert Holds(buckets[i], c, nodes, hash, |chains|, i);
        assert j < |c| - 1 ==> c[j].next == c[j + 1];
        if p0.next != null {
          assert j + 1 < |chains[i]| && p0.next == chains[i][j + 1];
          FlatAt(View(), |chains|, i, j + 1);
          p := p0.next;
          r := Some((p.key, p.value));
          return;
        }
        i := i + 1;
      }
      r, i, p := Scan(i, n);
    }

    /** A get returns the value of the first pair iterated with its key. */
    lemma GetIsFirst(k: K)
      requires Valid()
      ensures Top(Stack(k)) == if Find(All(), k) < |All()| then Some(All()[Find(All(), k)].1) else None
    {
      var v: seq<seq<(K, V)>> := View();
      forall i | 0 <= i < |v| && i != Place(k)
        ensures Lacks(v[i], k)
      {
        assert Holds(buckets[i], chains[i], nodes, hash, |chains|, i);
      }
      OnlyHere(v, Place(k), k, |v|);
      FindTop(All(), k);
    }

    /** The link before node j of a chain: where it is found, and what it holds. */
    method Search(k: K) returns (prev: Bucket?<K, V>, hb: Bucket?<K, V>, ghost j: nat)
      requires Valid()
      ensures var c := chains[Place(k)];
        j == Find(Pairs(c), k) && (if j < |c| then hb == c[j] else hb == null) &&
        (if j == 0 then prev == null else prev == c[j - 1])
    {
      var b := Place(k);
      ghost var c := chains[b];
      assert Holds(buckets[b], c, nodes, hash, |chains|, b);
      prev, hb, j := null, buckets[b], 0;
      while hb != null && hb.key != k
        invariant 0 <= j <= |c| && (if j < |c| then hb == c[j] else hb == null)
        invariant if j == 0 then prev == null else prev == c[j - 1]
        invariant forall m :: 0 <= m < j ==> c[m].key != k
        decreases |c| - j
      {
        prev, hb, j := hb, hb.next, j + 1;
      }
      FindIs(Pairs(c), k, j);
    }

    /** hash_deln: the value on top goes, those under it stay. */
    method Delete(k: K)
      requires Valid()
      modifies this, buckets, nodes
      ensures Valid() && nodes == old(nodes)
      ensures View() == old(View())[Place(k) := Without(old(View())[Place(k)], Find(old(View())[Place(k)], k))]
      ensures forall q :: Stack(q) == if q == k then Pop(old(Stack(k))) else old(Stack(q))
    {
      var b := Place(k);
      ghost var c := chains[b];
      var prev, hb, j := Search(k);
      if hb != null {
        Drop(b, prev, hb, j);
      }
      PairsWithout(c, j);
      forall q
        ensures Stack(q) == if q == k then Pop(old(Stack(k))) else old(Stack(q))
      {
        ValuesPop(Pairs(c), k, q);
      }
    }

    /** Takes node j out of the chain of bucket b. */
    method Drop(b: nat, prev: Bucket?<K, V>, hb: Bucket<K, V>, ghost j: nat)
      requires Valid() && b < |chains| && j < |chains[b]| && hb == chains[b][j]
      requires if j == 0 then prev == null else prev == chains[b][j - 1]
      modifies this`chains, buckets, nodes
      ensures Valid() && chains == old(chains)[b := Without(old(chains[b]), j)]
    {
      ghost var cs, ns := chains, nodes;
      assert Holds(buckets[b], cs[b], ns, hash, |cs|, b);
      forall i | 0 <= i < |cs| && i != b
        ensures Holds(buckets[i], cs[i], ns, hash, |cs|, i) && forall x :: x in cs[i] ==> x !in cs[b]
      {
        assert Holds(buckets[i], cs[i], ns, hash, |cs|, i);
        Apart(cs[i], cs[b], ns, hash, |cs|, i, b);
      }
      Unlink(buckets, b, prev, hb, cs[b], j);
      chains := cs[b := Without(cs[b], j)];
    }
  }

  // ---------------------------------------------------------------- runs

  datatype Op<K, V> = Set(k: K, v: V) | Get(k: K) | Delete(k: K)

  /** The stack under key k after some operations. */
  ghost function StackAfter<K, V>(ops: seq<Op<K, V>>, k: K): seq<V> {
    if ops == [] then []
    else
      StackNext(StackAfter(ops[..|ops| - 1], k), ops[|ops| - 1], k)
  }

  ghost function StackNext<K, V>(st: seq<V>, op: Op<K, V>, k: K): seq<V> {
    if op.k != k then st else match op case Set(_, v) => [v] + st case Get(_) => st case Delete(_) => Pop(st)
  }

  method Apply<K(==, !new), V>(t: Table<K, V>, op: Op<K, V>) returns (reply: Option<V>)
    requires t.Valid()
    modifies t, t.buckets, t.nodes
    ensures t.Valid() && fresh(t.nodes - old(t.nodes))
    ensures forall q :: t.Stack(q) == StackNext(old(t.Stack(q)), op, q)
    ensures reply == if op.Get? then Top(old(t.Stack(op.k))) else None
  {
    reply := None;
    match op {
      case Set(k, v) => t.Set(k, v);
      case Get(k) => reply := t.Get(k);
      case Delete(k) => t.Delete(k);
    }
  }

  /** Every run on a new table: each get returns the top of the stack of its key. */
  method Run<K(==, !new), V>(size: nat, hash: K -> nat, ops: seq<Op<K, V>>) returns (replies: seq<Option<V>>)
    requires 0 < size
    ensures |replies| == |ops|
    ensures forall i :: 0 <= i < |ops| ==>
      replies[i] == if ops[i].Get? then Top(StackAfter(ops[..i], ops[i].k)) else None
  {
    var t := new Table<K, V>(size, hash);
    replies := [];
    for i := 0 to |ops|
      invariant t.Valid() && fresh(t) && fresh(t.buckets) && fresh(t.nodes) && |replies| == i
      invariant forall q :: t.Stack(q) == StackAfter(ops[..i], q)
      invariant forall j :: 0 <= j < i ==>
        replies[j] == if ops[j].Get? then Top(StackAfter(ops[..j], ops[j].k)) else None
    {
      assert ops[..i + 1][..i] == ops[..i];
      var reply := Apply(t, ops[i]);
      replies := replies + [reply];
    }
  }

  lemma PairsWithout<K, V>(c: seq<Bucket<K, V>>, j: nat)
    ensures Pairs(Without(c, j)) == Without(Pairs(c), j)
  {
  }

  /** Chains of different buckets share no node. */
  lemma Apart<K, V>(c: seq<Bucket<K, V>>, d: seq<Bucket<K, V>>, nodes: set<Bucket<K, V>>, hash: K -> nat, size: nat,
                    i: nat, j: nat)
    requires 0 < size && Homed(c, nodes, hash, size, i) && Homed(d, nodes, hash, size, j) && i != j
    ensures forall x :: x in c ==> x !in d
  {
  }

  /** Takes node j out of the chain c of bucket b. */
  method Unlink<K, V>(buckets: array<Bucket?<K, V>>, b: nat, prev: Bucket?<K, V>, hb: Bucket<K, V>,
                      ghost c: seq<Bucket<K, V>>, ghost j: nat)
    requires b < buckets.Length && Linked(buckets[b], c) && j < |c| && hb == c[j]
    requires if j == 0 then prev == null else prev == c[j - 1]
    modifies buckets, c
    ensures Linked(buckets[b], Without(c, j))
    ensures forall i :: 0 <= i < buckets.Length && i != b ==> buckets[i] == old(buckets[i])
  {
    if prev != null {
      prev.next := hb.next;
    } else {
      buckets[b] := hb.next;
    }
    LinkedSkip(buckets[b], c, j);
  }

  lemma {:induction false} FindIs<K, V>(ps: seq<(K, V)>, k: K, j: nat)
    requires j <= |ps| && (j < |ps| ==> ps[j].0 == k) && forall m :: 0 <= m < j ==> ps[m].0 != k
    ensures Find(ps, k) == j
  {
  }
}
