/**
 How long the cache of src/main/tunnel/nt_rs_fec.c remembers a block: until as many
 other ids have been admitted since the block was last received as there are buffers.
 */
module FecMemory {
  import opened Collections
  import opened Lru

  /** The keys in front of a key. */
  ghost function Ahead(c: Recency<nat, nat>, id: nat): set<nat> {
    set i | 0 <= i < Find(c, id) :: c[i].key
  }

  /**
   The cache, and the ids admitted since the one in question was: it is cached
   exactly while they are fewer than the buffers, and then they stand in front of it.
   */
  ghost predicate Remembers(c: Recency<nat, nat>, id: nat, since: set<nat>) {
    && DistinctKeys(c)
    && if |since| < |c| then Has(c, id) && Ahead(c, id) == since else !Has(c, id)
  }

  lemma {:induction false} KeysSize(c: Recency<nat, nat>, n: nat)
    requires DistinctKeys(c) && n <= |c|
    ensures |set i | 0 <= i < n :: c[i].key| == n
  {
    if n > 0 {
      KeysSize(c, n - 1);
      assert (set i | 0 <= i < n :: c[i].key) == (set i | 0 <= i < n - 1 :: c[i].key) + {c[n - 1].key};
    }
  }

  lemma AheadSize(c: Recency<nat, nat>, id: nat)
    requires DistinctKeys(c)
    ensures |Ahead(c, id)| == Find(c, id) && id !in Ahead(c, id)
  {
    hide Find;
    KeysSize(c, Find(c, id));
  }

  /** The first position of a key is the only one. */
  lemma FoundAt(c: Recency<nat, nat>, id: nat, i: nat)
    requires i < |c| && c[i].key == id && forall j :: 0 <= j < i ==> c[j].key != id
    ensures Find(c, id) == i
  {
    hide Find;
  }

  lemma NotFound(c: Recency<nat, nat>, id: nat)
    requires forall j :: 0 <= j < |c| ==> c[j].key != id
    ensures !Has(c, id)
  {
    hide Find;
  }

  lemma NewestRemembered(c: Recency<nat, nat>, id: nat)
    requires DistinctKeys(c) && c != [] && c[0].key == id
    ensures Remembers(c, id, {})
  {
    hide Find, DistinctKeys;
    FoundAt(c, id, 0);
  }

  /** A cached block is received. */
  lemma Touched(c: Recency<nat, nat>, x: nat, id: nat, since: set<nat>)
    requires Has(c, x) && Remembers(c, id, since)
    ensures Remembers(Touch(c, x), id, if x == id then {} else since + {x})
  {
    TouchKeepsDistinct(c, x);
    if x == id {
      hide Find, DistinctKeys;
      NewestRemembered(Touch(c, x), id);
    } else if |since| < |c| {
      TouchedAhead(c, x, id);
      AheadSize(Touch(c, x), id);
    } else {
      hide Find, DistinctKeys;
      assert forall j :: 0 <= j < |c| ==> c[j].key != id;
      NotFound(Touch(c, x), id);
      SubsetSize(since, since + {x});
    }
  }

  lemma TouchedAhead(c: Recency<nat, nat>, x: nat, id: nat)
    requires DistinctKeys(c) && Has(c, x) && Has(c, id) && x != id
    ensures Has(Touch(c, x), id) && Ahead(Touch(c, x), id) == Ahead(c, id) + {x}
  {
    hide Find, DistinctKeys;
    var r, p, q := Touch(c, x), Find(c, x), Find(c, id);
    var q' := if p < q then q else q + 1;
    assert r[q'].key == id;
    FoundAt(r, id, q');
    forall y ensures y in Ahead(r, id) <==> y in Ahead(c, id) + {x} {
      AheadMembers(c, x, id, r, y);
    }
  }

  lemma AheadMembers(c: Recency<nat, nat>, x: nat, id: nat, r: Recency<nat, nat>, y: nat)
    requires Has(c, x) && Has(c, id) && x != id && r == Touch(c, x)
    requires Find(r, id) == if Find(c, x) < Find(c, id) then Find(c, id) else Find(c, id) + 1
    ensures y in Ahead(r, id) <==> y in Ahead(c, id) + {x}
  {
    hide *;
    TouchedIs(c, x, r);
    if y in Ahead(r, id) {
      WasAhead(c, Find(c, x), id, r, y);
    }
    if y in Ahead(c, id) + {x} {
      StaysAhead(c, Find(c, x), id, r, y);
    }
  }

  lemma TouchedIs(c: Recency<nat, nat>, x: nat, r: Recency<nat, nat>)
    requires Has(c, x) && r == Touch(c, x)
    ensures Moved(c, Find(c, x), r) && r[0].key == x
  {
    hide Find;
  }

  /** The entry at p is in front, and those before it have moved back by one. */
  ghost predicate Moved(c: Recency<nat, nat>, p: nat, r: Recency<nat, nat>) {
    && p < |c| == |r| && r[0] == c[p]
    && forall j {:trigger r[j]} :: 1 <= j < |r| ==> r[j] == if j <= p then c[j - 1] else c[j]
  }

  lemma MovedAt(c: Recency<nat, nat>, p: nat, r: Recency<nat, nat>, j: nat)
    requires Moved(c, p, r) && 1 <= j < |r|
    ensures r[j] == if j <= p then c[j - 1] else c[j]
  {
  }

  lemma WasAhead(c: Recency<nat, nat>, p: nat, id: nat, r: Recency<nat, nat>, y: nat)
    requires Moved(c, p, r) && y in Ahead(r, id)
    requires Find(r, id) == if p < Find(c, id) then Find(c, id) else Find(c, id) + 1
    ensures y in Ahead(c, id) + {r[0].key}
  {
    hide Find;
    var i :| 0 <= i < Find(r, id) && r[i].key == y;
    if i > 0 {
      MovedAt(c, p, r, i);
    }
  }

  lemma StaysAhead(c: Recency<nat, nat>, p: nat, id: nat, r: Recency<nat, nat>, y: nat)
    requires Moved(c, p, r) && y in Ahead(c, id) + {r[0].key}
    requires Find(r, id) == if p < Find(c, id) then Find(c, id) else Find(c, id) + 1
    ensures y in Ahead(r, id)
  {
    hide Find;
    if y != r[0].key {
      var i :| 0 <= i < Find(c, id) && c[i].key == y;
      var i' := if i < p then i + 1 else i;
      assert 1 <= i' < |r|;
      MovedAt(c, p, r, i');
      IsAhead(r, id, i');
    }
  }

  lemma IsAhead(c: Recency<nat, nat>, id: nat, i: nat)
    requires i < Find(c, id)
    ensures c[i].key in Ahead(c, id)
  {
    hide Find;
  }

  /** A new block takes the buffer of the eldest. */
  lemma Evicted(c: Recency<nat, nat>, x: nat, k: nat, id: nat, since: set<nat>)
    requires c != [] && !Has(c, x) && Remembers(c, id, since)
    ensures Has(c, Eldest(c).key)
    ensures Remembers(Put(Remove(c, Eldest(c).key), x, k), id, if x == id then {} else since + {x})
  {
    RemoveEldest(c);
    var front := c[..|c| - 1];
    var r := Put(front, x, k);
    EvictedDistinct(c, x, k);
    hide Find, DistinctKeys, Remove;
    if x == id {
      NewestRemembered(r, id);
    } else if |since| >= |c| {
      NotFound(r, id);
      SubsetSize(since, since + {x});
    } else {
      EvictedStays(c, r, x, id, since);
    }
  }

  /** A cached block moves back by one, and out at the end. */
  lemma EvictedStays(c: Recency<nat, nat>, r: Recency<nat, nat>, x: nat, id: nat, since: set<nat>)
    requires Remembers(c, id, since) && !Has(c, x) && x != id && |since| < |c| == |r| && DistinctKeys(r)
    requires r[0].key == x && forall j :: 1 <= j < |r| ==> r[j] == c[j - 1]
    ensures Remembers(r, id, since + {x})
  {
    hide Find, DistinctKeys;
    var q := Find(c, id);
    AheadSize(c, id);
    assert x !in since;
    if q == |c| - 1 {
      NotFound(r, id);
    } else {
      assert r[q + 1].key == id;
      FoundAt(r, id, q + 1);
      PutAhead(c, r, x, id);
    }
  }

  lemma EvictedDistinct(c: Recency<nat, nat>, x: nat, k: nat)
    requires DistinctKeys(c) && c != [] && !Has(c, x)
    ensures DistinctKeys(Put(c[..|c| - 1], x, k))
  {
    hide Find;
  }

  lemma PutAhead(c: Recency<nat, nat>, r: Recency<nat, nat>, x: nat, id: nat)
    requires |r| == |c| > 0 && r[0].key == x && (forall j :: 1 <= j < |r| ==> r[j] == c[j - 1])
    requires Has(c, id) && Find(r, id) == Find(c, id) + 1
    ensures Ahead(r, id) == Ahead(c, id) + {x}
  {
    hide Find;
    var q := Find(c, id);
    forall y ensures y in Ahead(r, id) <==> y in Ahead(c, id) + {x} {
      if y in Ahead(c, id) {
        var i :| 0 <= i < q && c[i].key == y;
        assert r[i + 1].key == y;
      }
      if y == x {
        assert r[0].key == y;
      }
    }
  }

  /** What nt_rs_fec_decode does to the cache when a packet of block x comes. */
  ghost predicate Step(c: Recency<nat, nat>, c': Recency<nat, nat>, x: nat, admitted: bool) {
    if !admitted then c' == c
    else if Has(c, x) then c' == Touch(c, x)
    else c != [] && Has(c, Eldest(c).key) && c' == Put(Remove(c, Eldest(c).key), x, Eldest(c).value)
  }

  /** The ids admitted since id was. */
  ghost function Since(since: set<nat>, x: nat, admitted: bool, id: nat): set<nat> {
    if !admitted then since else if x == id then {} else since + {x}
  }

  lemma StepRemembers(c: Recency<nat, nat>, c': Recency<nat, nat>, x: nat, admitted: bool, id: nat, since: set<nat>)
    requires Remembers(c, id, since) && Step(c, c', x, admitted)
    ensures Remembers(c', id, Since(since, x, admitted, id)) && |c'| == |c|
  {
    hide Remembers, Has;
    if admitted {
      if Has(c, x) {
        Touched(c, x, id, since);
      } else {
        Evicted(c, x, Eldest(c).value, id, since);
      }
    }
  }
}
