/**
 The chains of the hash table of src/main/utils/hashmap.c, on values: entries are
 named by their index in the entry array, and -1 is the null pointer.
 */
module HashChains {
  import opened Collections
  import opened Arithmetic

  /** hashmap_entry_t; an entry that is not used is Free. */
  datatype Entry<K, V> = Free | Used(key: K, value: V, prev: int, next: int)

  const NULL := -1

  /** The bucket of a hash. */
  function Bucket(hash: nat, n: nat): (b: nat)
    requires n > 0
    ensures b < n
  {
    Mod(hash, n)
  }

  function At(c: seq<nat>, j: int): int {
    if 0 <= j < |c| then c[j] else NULL
  }

  /** The links of entry j of the chain c. */
  ghost predicate Link<K, V>(es: seq<Entry<K, V>>, c: seq<nat>, j: nat)
    requires j < |c|
  {
    c[j] < |es| && es[c[j]].Used? && es[c[j]].prev == At(c, j - 1) && es[c[j]].next == At(c, j + 1)
  }

  /** c lists the entries of a bucket in the order of their links. */
  ghost predicate Linked<K, V>(es: seq<Entry<K, V>>, head: int, c: seq<nat>) {
    && head == At(c, 0)
    && Distinct(c)
    && forall j :: 0 <= j < |c| ==> Link(es, c, j)
  }

  /** An entry of bucket b. */
  ghost predicate Belongs<K, V>(es: seq<Entry<K, V>>, hash: K -> nat, n: nat, b: nat, e: nat)
    requires n > 0
  {
    e < |es| && es[e].Used? && Bucket(hash(es[e].key), n) == b
  }

  /** The chains partition the used entries by bucket. */
  ghost predicate Chained<K, V>(es: seq<Entry<K, V>>, heads: seq<int>, hash: K -> nat, chains: seq<seq<nat>>) {
    && |heads| == |chains| > 0
    && (forall b :: 0 <= b < |chains| ==> Linked(es, heads[b], chains[b]))
    && (forall b, e: nat :: 0 <= b < |chains| ==> (e in chains[b] <==> Belongs(es, hash, |chains|, b, e)))
  }

  // ----- Adding to the front of a chain.

  function Prepend<K, V>(es: seq<Entry<K, V>>, head: int, e: nat, key: K, value: V): (r: seq<Entry<K, V>>)
    requires e < |es| && (head == NULL || (0 <= head < |es| && es[head].Used?))
    ensures |r| == |es|
  {
    var linked := es[e := Used(key, value, NULL, head)];
    if head == NULL || head == e then linked else linked[head := linked[head].(prev := e)]
  }

  lemma PrependLink<K, V>(es: seq<Entry<K, V>>, head: int, c: seq<nat>, e: nat, key: K, value: V, j: nat)
    requires Linked(es, head, c) && e < |es| && es[e].Free? && j <= |c| && Points(es, head)
    ensures Link(Prepend(es, head, e, key, value), [e] + c, j)
    ensures j > 0 ==> c[j - 1] != e
  {
    var c' := [e] + c;
    if j > 0 {
      assert Link(es, c, j - 1);
      assert c'[j] == c[j - 1];
      assert j > 1 ==> c[j - 1] != c[0];
    }
  }

  lemma PrependLinks<K, V>(es: seq<Entry<K, V>>, head: int, c: seq<nat>, e: nat, key: K, value: V)
    requires Linked(es, head, c) && e < |es| && es[e].Free?
    ensures head == NULL || (0 <= head < |es| && es[head].Used?)
    ensures Linked(Prepend(es, head, e, key, value), e, [e] + c)
  {
    LinkedHead(es, head, c);
    hide Prepend, Link;
    forall j | 0 <= j <= |c| ensures Link(Prepend(es, head, e, key, value), [e] + c, j) {
      PrependLink(es, head, c, e, key, value, j);
    }
    forall j | 0 <= j < |c| ensures c[j] != e {
      PrependLink(es, head, c, e, key, value, j + 1);
    }
    PrependDistinct(c, e);
  }

  lemma PrependDistinct(c: seq<nat>, e: nat)
    requires Distinct(c) && forall j :: 0 <= j < |c| ==> c[j] != e
    ensures Distinct([e] + c)
  {
    var c' := [e] + c;
    forall i, j | 0 <= i < j < |c'| ensures c'[i] != c'[j] {
      assert c'[j] == c[j - 1] != e;
      assert i > 0 ==> c'[i] == c[i - 1];
    }
  }

  /** Chains of other entries are not touched. */
  lemma PrependElsewhere<K, V>(es: seq<Entry<K, V>>, head: int, e: nat, key: K, value: V, h: int, c: seq<nat>)
    requires e < |es| && es[e].Free? && (head == NULL || (0 <= head < |es| && es[head].Used?))
    requires Linked(es, h, c) && forall j :: 0 <= j < |c| ==> c[j] != head
    ensures Linked(Prepend(es, head, e, key, value), h, c)
  {
    forall j | 0 <= j < |c| ensures Link(Prepend(es, head, e, key, value), c, j) {
      assert Link(es, c, j);
    }
  }

  lemma PrependKeepsChains<K, V>(es: seq<Entry<K, V>>, heads: seq<int>, hash: K -> nat, chains: seq<seq<nat>>, b: nat,
                                 e: nat, key: K, value: V)
    requires Chained(es, heads, hash, chains) && e < |es| && es[e].Free? && b == Bucket(hash(key), |chains|)
    ensures heads[b] == NULL || (0 <= heads[b] < |es| && es[heads[b]].Used?)
    ensures Chained(Prepend(es, heads[b], e, key, value), heads[b := e], hash, chains[b := [e] + chains[b]])
  {
    hide Bucket, Linked;
    LinkedHead(es, heads[b], chains[b]);
    var es' := Prepend(es, heads[b], e, key, value);
    var chains' := chains[b := [e] + chains[b]];
    forall b' | 0 <= b' < |chains| ensures Linked(es', heads[b := e][b'], chains'[b']) {
      if b' == b {
        PrependLinks(es, heads[b], chains[b], e, key, value);
      } else {
        forall j | 0 <= j < |chains[b']| ensures chains[b'][j] != heads[b] {
          assert chains[b'][j] in chains[b'];
          assert chains[b] != [] ==> chains[b][0] in chains[b];
        }
        PrependElsewhere(es, heads[b], e, key, value, heads[b'], chains[b']);
      }
    }
  }

  lemma LinkedHead<K, V>(es: seq<Entry<K, V>>, head: int, c: seq<nat>)
    requires Linked(es, head, c)
    ensures if c == [] then head == NULL else 0 <= head < |es| && es[head].Used? && head == c[0]
  {
    assert c != [] ==> Link(es, c, 0);
  }

  // ----- Taking an entry out of its chain.

  function SetNext<K, V>(es: seq<Entry<K, V>>, e: int, next: int): (r: seq<Entry<K, V>>)
    requires e == NULL || (0 <= e < |es| && es[e].Used?)
    ensures |r| == |es|
  {
    if e == NULL then es else es[e := es[e].(next := next)]
  }

  function SetPrev<K, V>(es: seq<Entry<K, V>>, e: int, prev: int): (r: seq<Entry<K, V>>)
    requires e == NULL || (0 <= e < |es| && es[e].Used?)
    ensures |r| == |es|
  {
    if e == NULL then es else es[e := es[e].(prev := prev)]
  }

  ghost predicate Points<K, V>(es: seq<Entry<K, V>>, p: int) {
    p == NULL || (0 <= p < |es| && es[p].Used?)
  }

  function Unlink<K, V>(es: seq<Entry<K, V>>, e: nat): (r: seq<Entry<K, V>>)
    requires e < |es| && es[e].Used? && Points(es, es[e].prev) && Points(es, es[e].next)
    ensures |r| == |es|
  {
    var prev, next := es[e].prev, es[e].next;
    SetPrev(SetNext(es, prev, next), next, prev)[e := Free]
  }

  lemma LinkPoints<K, V>(es: seq<Entry<K, V>>, head: int, c: seq<nat>, j: nat)
    requires Linked(es, head, c) && j < |c|
    ensures c[j] < |es| && es[c[j]].Used? && es[c[j]].prev == At(c, j - 1) && es[c[j]].next == At(c, j + 1)
    ensures Points(es, es[c[j]].prev) && Points(es, es[c[j]].next)
  {
    assert Link(es, c, j);
    assert j > 0 ==> Link(es, c, j - 1);
    assert j + 1 < |c| ==> Link(es, c, j + 1);
  }

  lemma UnlinkAt<K, V>(es: seq<Entry<K, V>>, head: int, c: seq<nat>, j: nat, i: nat)
    requires Linked(es, head, c) && j < |c| && i < |c| && i != j
    requires c[j] < |es| && es[c[j]].Used? && Points(es, es[c[j]].prev) && Points(es, es[c[j]].next)
    ensures c[i] < |es| && es[c[i]].Used?
    ensures var e := Unlink(es, c[j])[c[i]];
            && e.Used?
            && e.next == (if i + 1 == j then At(c, j + 1) else At(c, i + 1))
            && e.prev == (if i == j + 1 then At(c, j - 1) else At(c, i - 1))
            && e.key == es[c[i]].key && e.value == es[c[i]].value
  {
    LinkPoints(es, head, c, j);
    LinkPoints(es, head, c, i);
  }

  lemma UnlinkLinks<K, V>(es: seq<Entry<K, V>>, head: int, c: seq<nat>, j: nat)
    requires Linked(es, head, c) && j < |c|
    requires c[j] < |es| && es[c[j]].Used? && Points(es, es[c[j]].prev) && Points(es, es[c[j]].next)
    ensures Linked(Unlink(es, c[j]), if j == 0 then es[c[j]].next else head, RemoveAt(c, j))
  {
    hide Unlink;
    var es', c' := Unlink(es, c[j]), RemoveAt(c, j);
    LinkPoints(es, head, c, j);
    forall i | 0 <= i < |c'| ensures Link(es', c', i) {
      UnlinkAt(es, head, c, j, if i < j then i else i + 1);
    }
  }

  lemma UnlinkElsewhere<K, V>(es: seq<Entry<K, V>>, e: nat, h: int, c: seq<nat>)
    requires e < |es| && es[e].Used? && Points(es, es[e].prev) && Points(es, es[e].next) && Linked(es, h, c)
    requires forall i :: 0 <= i < |c| ==> c[i] != e && c[i] != es[e].prev && c[i] != es[e].next
    ensures Linked(Unlink(es, e), h, c)
  {
    forall i | 0 <= i < |c| ensures Link(Unlink(es, e), c, i) {
      assert Link(es, c, i);
    }
  }

  /** Unlinking changes nothing but links. */
  lemma UnlinkKeeps<K, V>(es: seq<Entry<K, V>>, e: nat, x: nat)
    requires e < |es| && es[e].Used? && Points(es, es[e].prev) && Points(es, es[e].next) && x < |es|
    ensures x == e ==> Unlink(es, e)[x].Free?
    ensures x != e ==> (Unlink(es, e)[x].Used? <==> es[x].Used?)
    ensures x != e && es[x].Used? ==> Unlink(es, e)[x].key == es[x].key && Unlink(es, e)[x].value == es[x].value
  {
  }

  lemma ChainMember<K, V>(es: seq<Entry<K, V>>, heads: seq<int>, hash: K -> nat, chains: seq<seq<nat>>, b: nat, j: nat)
    requires Chained(es, heads, hash, chains) && b < |chains| && j < |chains[b]|
    ensures Belongs(es, hash, |chains|, b, chains[b][j])
  {
    hide Linked, Belongs;
    assert chains[b][j] in chains[b];
  }

  /** No link of an entry leads to another chain. */
  lemma Separate<K, V>(es: seq<Entry<K, V>>, heads: seq<int>, hash: K -> nat, chains: seq<seq<nat>>, b: nat, j: nat,
                       b': nat, i: nat)
    requires Chained(es, heads, hash, chains) && b < |chains| && j < |chains[b]| && b' < |chains| && b' != b
    requires i < |chains[b']|
    ensures chains[b'][i] != chains[b][j]
  {
    hide Linked, Bucket;
    ChainMember(es, heads, hash, chains, b, j);
    ChainMember(es, heads, hash, chains, b', i);
  }

  lemma UnlinkKeepsChains<K, V>(es: seq<Entry<K, V>>, heads: seq<int>, hash: K -> nat, chains: seq<seq<nat>>, b: nat,
                                j: nat)
    requires Chained(es, heads, hash, chains) && b < |chains| && j < |chains[b]|
    ensures var e := chains[b][j];
            && e < |es| && es[e].Used? && Points(es, es[e].prev) && Points(es, es[e].next)
            && (es[e].prev == NULL <==> j == 0)
            && Chained(Unlink(es, e), if es[e].prev == NULL then heads[b := es[e].next] else heads, hash,
                       chains[b := RemoveAt(chains[b], j)])
  {
    hide Bucket, Linked, Unlink, Belongs;
    var e, c := chains[b][j], chains[b];
    LinkPoints(es, heads[b], c, j);
    var es', chains' := Unlink(es, e), chains[b := RemoveAt(c, j)];
    var heads' := if es[e].prev == NULL then heads[b := es[e].next] else heads;
    forall b' | 0 <= b' < |chains| ensures Linked(es', heads'[b'], chains'[b']) {
      if b' == b {
        UnlinkLinks(es, heads[b], c, j);
      } else {
        forall i | 0 <= i < |chains[b']|
          ensures chains[b'][i] != e && chains[b'][i] != es[e].prev && chains[b'][i] != es[e].next
        {
          Separate(es, heads, hash, chains, b, j, b', i);
          if j > 0 { Separate(es, heads, hash, chains, b, j - 1, b', i); }
          if j + 1 < |c| { Separate(es, heads, hash, chains, b, j + 1, b', i); }
        }
        UnlinkElsewhere(es, e, heads[b'], chains[b']);
      }
    }
    forall b', x: nat | 0 <= b' < |chains| ensures x in chains'[b'] <==> Belongs(es', hash, |chains|, b', x) {
      UnlinkBelongs(es, heads, hash, chains, b, j, b', x);
    }
  }

  lemma UnlinkBelongs<K, V>(es: seq<Entry<K, V>>, heads: seq<int>, hash: K -> nat, chains: seq<seq<nat>>, b: nat,
                            j: nat, b': nat, x: nat)
    requires Chained(es, heads, hash, chains) && b < |chains| && j < |chains[b]| && b' < |chains|
    requires var e := chains[b][j]; e < |es| && es[e].Used? && Points(es, es[e].prev) && Points(es, es[e].next)
    ensures x in chains[b := RemoveAt(chains[b], j)][b'] <==> Belongs(Unlink(es, chains[b][j]), hash, |chains|, b', x)
  {
    hide Bucket, Unlink;
    var e, c := chains[b][j], chains[b];
    RemoveAtMembers(c, j);
    if x < |es| {
      UnlinkKeeps(es, e, x);
    }
    assert e in c;
    assert x in chains[b'] <==> Belongs(es, hash, |chains|, b', x);
  }
}
