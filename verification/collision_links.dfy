/**
 * The `collision_next`/`collision_prev` pointers of one slot's buckets (dict.h
 * `struct bucket`), which `ChainedTable` abstracts into the order of a chain.
 *
 * `ht_insert` links a new overflow bucket right after the head and points its
 * `collision_prev` at the head, but leaves the `collision_prev` of the bucket it
 * pushes down to position 2 pointing at the head too (dict.c:91-94). So every
 * overflow bucket points back at the head, and `bucket_free` of the bucket at
 * chain position p >= 2 links the head past positions 1..p-1 as well (dict.c:43).
 * `LinkAfterHead` and `Unhook` are the pointer updates as the code makes them;
 * `LinkAfterHeadBothWays` also repoints that back link, and then `Unhook` takes
 * exactly one bucket out, which is the chain `ChainedTable.Release` leaves.
 */
module CollisionLinks {

  import opened Options
  import opened Djb
  import opened ChainedTable

  /** `collision_next` and `collision_prev` of every bucket; a handle outside a map's domain stands for NULL. */
  datatype Links = Links(next: map<Id, Id>, prev: map<Id, Id>)

  /** Following `collision_next` from `chain[0]` visits exactly the buckets of `chain`, in order, and then reaches NULL. */
  ghost predicate Threads(l: Links, chain: seq<Id>)
  {
    && |chain| > 0
    && Distinct(chain)
    && (forall i | 0 <= i < |chain| - 1 :: chain[i] in l.next && l.next[chain[i]] == chain[i + 1])
    && chain[|chain| - 1] !in l.next
  }

  /** The back links the code maintains: none on the head, and the head on every overflow bucket. */
  ghost predicate HeadLinked(l: Links, chain: seq<Id>)
  {
    && Threads(l, chain)
    && chain[0] !in l.prev
    && (forall i | 1 <= i < |chain| :: chain[i] in l.prev && l.prev[chain[i]] == chain[0])
  }

  /** The back links of a doubly linked chain: none on the head, and its predecessor on every overflow bucket. */
  ghost predicate DoublyLinked(l: Links, chain: seq<Id>)
  {
    && Threads(l, chain)
    && chain[0] !in l.prev
    && (forall i | 1 <= i < |chain| :: chain[i] in l.prev && l.prev[chain[i]] == chain[i - 1])
  }

  /**
   * The walk from a head is decided by the links: two chains that both thread
   * the same links from the same head are the same chain. So a chain that
   * `Threads` the links is the one the scans of `ht_insert` and `ht_get` follow.
   */
  lemma {:induction false} ThreadsUnique(l: Links, c1: seq<Id>, c2: seq<Id>)
    requires Threads(l, c1) && Threads(l, c2) && c1[0] == c2[0]
    ensures c1 == c2
  {
    var n := if |c1| < |c2| then |c1| else |c2|;
    SamePrefix(l, c1, c2, n - 1);
  }

  /** Two threading chains from the same head agree up to any position both reach. */
  lemma {:induction false} SamePrefix(l: Links, c1: seq<Id>, c2: seq<Id>, i: nat)
    requires Threads(l, c1) && Threads(l, c2) && c1[0] == c2[0]
    requires i < |c1| && i < |c2|
    ensures forall j | 0 <= j <= i :: c1[j] == c2[j]
    decreases i
  {
    if i > 0 {
      SamePrefix(l, c1, c2, i - 1);
      assert c1[i] == l.next[c1[i - 1]] == l.next[c2[i - 1]] == c2[i];
    }
  }

  /**
   * dict.c:91-94 as written: the fresh bucket `b` takes over the head's
   * `collision_next`, becomes the head's `collision_next`, and points back at the
   * head. The bucket that was after the head keeps its back link.
   */
  function LinkAfterHead(l: Links, head: Id, b: Id): Links
  {
    var next := if head in l.next then l.next[b := l.next[head]] else l.next - {b};
    Links(next[head := b], l.prev[b := head])
  }

  /** The same splice, also pointing the back link of the bucket pushed down after `b` at `b`. */
  function LinkAfterHeadBothWays(l: Links, head: Id, b: Id): Links
  {
    var r := LinkAfterHead(l, head, b);
    if head in l.next then r.(prev := r.prev[l.next[head] := b]) else r
  }

  /**
   * `bucket_free` (dict.c:40-50): a bucket without a `collision_prev` is left
   * alone. Otherwise the bucket its `collision_prev` names is pointed at its
   * `collision_next`, that successor (if any) is pointed back at the same bucket,
   * and the freed bucket's own links go with it.
   */
  function Unhook(l: Links, b: Id): Links
  {
    if b !in l.prev then l
    else
      var p := l.prev[b];
      var next := if b in l.next then l.next[p := l.next[b]] else l.next - {p};
      var prev := if b in l.next then l.prev[l.next[b] := p] else l.prev;
      Links(next - {b}, prev - {b})
  }

  /** The chain `bucket_free` leaves when it frees position `p`: the head is linked straight to position p + 1. */
  function ThroughHead(chain: seq<Id>, p: nat): seq<Id>
    requires p < |chain|
  {
    if p == 0 then chain else [chain[0]] + chain[p + 1..]
  }

  /** The new chain is the old one with `b` right after the head, and every back link still names the head. */
  lemma LinkKeepsHeadLinked(l: Links, chain: seq<Id>, b: Id)
    requires HeadLinked(l, chain) && b !in chain
    ensures HeadLinked(LinkAfterHead(l, chain[0], b), Splice(chain, b))
  {
    var c := Splice(chain, b);
    assert forall i | 2 <= i < |c| :: c[i] == chain[i - 1];
  }

  /**
   * As written, freeing the overflow bucket at position `p` leaves the chain
   * `ThroughHead(chain, p)`: the buckets at positions 1..p-1 drop out of it with
   * the freed one. Freeing the head changes nothing.
   */
  lemma UnhookThroughHead(l: Links, chain: seq<Id>, p: nat)
    requires HeadLinked(l, chain) && p < |chain|
    ensures HeadLinked(Unhook(l, chain[p]), ThroughHead(chain, p))
    ensures 1 < p ==> forall q | 1 <= q < p :: chain[q] !in ThroughHead(chain, p)
  {
    if p > 0 {
      var h, b := chain[0], chain[p];
      var c := ThroughHead(chain, p);
      var r := Unhook(l, b);
      assert l.prev[b] == h;
      assert Distinct(c) by {
        assert forall i | 1 <= i < |c| :: c[i] == chain[p + i];
      }
      forall i | 1 <= i < |c|
        ensures c[i] == chain[p + i] && c[i] != h && c[i] != b
        ensures c[i] in r.prev && r.prev[c[i]] == h
        ensures i < |c| - 1 ==> c[i] in r.next && r.next[c[i]] == c[i + 1]
      {
        assert chain[0] != chain[p + i] && chain[p] != chain[p + i];
      }
      if |c| > 1 {
        assert r.next[h] == c[1];
      }
      assert c[|c| - 1] !in r.next;
      forall q | 1 <= q < p
        ensures chain[q] !in c
      {
        assert chain[q] != h;
        forall i | 1 <= i < |c|
          ensures c[i] != chain[q]
        {
          assert c[i] == chain[p + i];
        }
      }
    }
  }

  /** With both links of the splice updated, every back link names the bucket's predecessor. */
  lemma LinkBothWaysKeepsDoublyLinked(l: Links, chain: seq<Id>, b: Id)
    requires DoublyLinked(l, chain) && b !in chain
    ensures DoublyLinked(LinkAfterHeadBothWays(l, chain[0], b), Splice(chain, b))
  {
    var h := chain[0];
    var c := Splice(chain, b);
    var r := LinkAfterHeadBothWays(l, h, b);
    assert Distinct(c) by {
      assert forall i | 2 <= i < |c| :: c[i] == chain[i - 1];
    }
    forall i | 2 <= i < |c|
      ensures c[i] == chain[i - 1] && c[i] != h && c[i] != b
      ensures c[i] in r.prev && r.prev[c[i]] == c[i - 1]
      ensures i < |c| - 1 ==> c[i] in r.next && r.next[c[i]] == c[i + 1]
    {
      assert chain[0] != chain[i - 1];
      if i > 2 {
        assert chain[1] != chain[i - 1];
      }
    }
    if |chain| > 1 {
      assert chain[1] != h;
    }
    assert h !in r.prev;
    assert r.prev[b] == h && r.next[h] == b;
  }

  /**
   * With back links to predecessors, freeing the bucket at position `p` takes
   * exactly that bucket out of the chain, which is the chain `ChainedTable.Release`
   * leaves; freeing the head changes nothing.
   */
  lemma UnhookUnlinks(l: Links, chain: seq<Id>, p: nat)
    requires DoublyLinked(l, chain) && p < |chain|
    ensures DoublyLinked(Unhook(l, chain[p]), if p == 0 then chain else Unlink(chain, p))
  {
    if p > 0 {
      assert l.prev[chain[p]] == chain[p - 1];
      UnhookForward(l, chain, p);
      UnhookBackward(l, chain, p);
    }
  }

  /** Freeing the bucket at position p > 0 whose back link names position p - 1 threads the chain without it. */
  lemma UnhookForward(l: Links, chain: seq<Id>, p: nat)
    requires Threads(l, chain) && 0 < p < |chain| && chain[p] in l.prev && l.prev[chain[p]] == chain[p - 1]
    ensures Threads(Unhook(l, chain[p]), Unlink(chain, p))
  {
    var c := Unlink(chain, p);
    var r := Unhook(l, chain[p]);
    assert forall i | 0 <= i < |c| :: c[i] == if i < p then chain[i] else chain[i + 1];
    assert Distinct(c);
    forall i | 0 <= i < |c| - 1
      ensures c[i] in r.next && r.next[c[i]] == c[i + 1]
    {
      if i < p - 1 {
        assert chain[i] != chain[p] && chain[i] != chain[p - 1];
      } else if i >= p {
        assert chain[i + 1] != chain[p] && chain[i + 1] != chain[p - 1];
      }
    }
    assert c[|c| - 1] !in r.next by {
      if p < |chain| - 1 {
        assert chain[|chain| - 1] != chain[p - 1];
      }
    }
  }

  /** The same free keeps every remaining back link naming its predecessor. */
  lemma UnhookBackward(l: Links, chain: seq<Id>, p: nat)
    requires DoublyLinked(l, chain) && 0 < p < |chain|
    ensures var c, r := Unlink(chain, p), Unhook(l, chain[p]);
            c[0] !in r.prev && forall i | 1 <= i < |c| :: c[i] in r.prev && r.prev[c[i]] == c[i - 1]
  {
    var c := Unlink(chain, p);
    var r := Unhook(l, chain[p]);
    assert forall i | 0 <= i < |c| :: c[i] == if i < p then chain[i] else chain[i + 1];
    forall i | 1 <= i < |c|
      ensures c[i] in r.prev && r.prev[c[i]] == c[i - 1]
    {
      if i < p {
        assert chain[i] != chain[p];
        if p + 1 < |chain| {
          assert chain[i] != chain[p + 1];
        }
      } else if i > p {
        assert chain[i + 1] != chain[p] && chain[i + 1] != chain[p + 1];
      }
    }
    assert c[0] !in r.prev by {
      if p + 1 < |chain| {
        assert chain[0] != chain[p + 1];
      }
    }
  }

  /**
   * The smallest case: three buckets in one slot, head 0, then 1, then 2, give
   * the chain [0, 2, 1]. Freeing bucket 1 as written relinks the head to NULL, so
   * the walk from the head is [0] and bucket 2 is lost, while bucket 2 still
   * names the freed bucket as its `collision_next`.
   */
  lemma StaleBackLinkLosesBucket()
    ensures var l := LinkAfterHead(LinkAfterHead(Links(map[], map[]), 0, 1), 0, 2);
            && HeadLinked(l, [0, 2, 1])
            && HeadLinked(Unhook(l, 1), [0])
            && Unhook(l, 1).next == map[2 := 1]
  {
    var l1 := LinkAfterHead(Links(map[], map[]), 0, 1);
    assert l1 == Links(map[0 := 1], map[1 := 0]);
    var l := LinkAfterHead(l1, 0, 2);
    assert l == Links(map[0 := 2, 2 := 1], map[1 := 0, 2 := 0]);
    assert Unhook(l, 1) == Links(map[2 := 1], map[2 := 0]);
    var c: seq<Id> := [0, 2, 1];
    assert c[0] == 0 && c[1] == 2 && c[2] == 1;
  }

  /** The same three inserts with both links updated: freeing bucket 1 leaves the walk [0, 2]. */
  lemma RepointedBackLinkKeepsBucket()
    ensures var l := LinkAfterHeadBothWays(LinkAfterHeadBothWays(Links(map[], map[]), 0, 1), 0, 2);
            && DoublyLinked(l, [0, 2, 1])
            && DoublyLinked(Unhook(l, 1), [0, 2])
  {
    var l0 := Links(map[], map[]);
    var l1 := LinkAfterHeadBothWays(l0, 0, 1);
    var l := LinkAfterHeadBothWays(l1, 0, 2);
    assert DoublyLinked(l0, [0]);
    LinkBothWaysKeepsDoublyLinked(l0, [0], 1);
    assert Splice([0], 1) == [0, 1];
    LinkBothWaysKeepsDoublyLinked(l1, [0, 1], 2);
    assert Splice([0, 1], 2) == [0, 2, 1];
    UnhookUnlinks(l, [0, 2, 1], 2);
    assert Unlink([0, 2, 1], 2) == [0, 2];
  }

  /**
   * `bucket_free` as written on a table: freeing the overflow bucket at chain
   * position p leaves the head followed by positions p + 1 onwards, while the
   * buckets at positions 1..p-1 stay allocated with their keys and values.
   */
  function FreeThroughHead<V>(t: Table<V>, id: Id): (r: Table<V>)
    requires Valid(t) && id in t.nodes
    ensures |r.slots| == |t.slots| && r.usage == t.usage
    ensures forall s | 0 <= s < |r.slots| :: forall i | 0 <= i < |r.slots[s]| :: r.slots[s][i] in r.nodes
  {
    var s := SlotIndex(DjbHash(t.nodes[id].key), |t.slots|);
    var chain := t.slots[s];
    var p := IndexOf(chain, id);
    assert ChainValid(t.nodes, chain, s, |t.slots|);
    if p == 0 then t
    else
      var c := ThroughHead(chain, p);
      assert forall i | 0 <= i < |c| :: c[i] == if i == 0 then chain[0] else chain[p + i];
      assert forall i | 0 <= i < |chain| && i != p :: chain[i] != chain[p];
      assert forall s' | 0 <= s' < |t.slots| && s' != s :: ChainValid(t.nodes, t.slots[s'], s', |t.slots|) && id !in t.slots[s'];
      t.(slots := t.slots[s := c], nodes := t.nodes - {id})
  }

  /** No bucket of the chain left after freeing position p holds the key of a bucket that was in front of it. */
  lemma ThroughHeadDropsKey<V>(nodes: map<Id, Entry<V>>, chain: seq<Id>, slot: nat, cap: nat, p: nat, q: nat)
    requires cap > 0 && ChainValid(nodes, chain, slot, cap) && 0 < q < p < |chain|
    ensures forall i | 0 <= i < |ThroughHead(chain, p)| :: nodes[ThroughHead(chain, p)[i]].key != nodes[chain[q]].key
  {
    var c := ThroughHead(chain, p);
    assert forall i | 0 <= i < |c| :: c[i] == if i == 0 then chain[0] else chain[p + i];
  }

  /**
   * Freeing, as written, the bucket at chain position p >= 2 loses every bucket
   * in front of it: a bucket at position q in 1..p-1 keeps its key and value, and
   * stays on the usage list if it was there, yet the scan of its key's chain
   * (`ht_get`) no longer reaches any bucket holding that key.
   */
  lemma FreeThroughHeadLoses<V>(t: Table<V>, id: Id, q: nat)
    requires Valid(t) && id in t.nodes
    requires var chain := t.slots[SlotIndex(DjbHash(t.nodes[id].key), |t.slots|)];
             0 < q < IndexOf(chain, id)
    ensures var s := SlotIndex(DjbHash(t.nodes[id].key), |t.slots|);
            var b := t.slots[s][q];
            var r := FreeThroughHead(t, id);
            && b in r.nodes && r.nodes[b] == t.nodes[b]
            && (b in t.usage ==> b in r.usage)
            && SlotIndex(DjbHash(r.nodes[b].key), |r.slots|) == s
            && FirstMatch(r.nodes, r.slots[s], r.nodes[b].key) == |r.slots[s]|
  {
    var s := SlotIndex(DjbHash(t.nodes[id].key), |t.slots|);
    var chain := t.slots[s];
    var p := IndexOf(chain, id);
    var r := FreeThroughHead(t, id);
    assert ChainValid(t.nodes, chain, s, |t.slots|);
    assert chain[q] != id;
    assert r.slots[s] == ThroughHead(chain, p) && r.nodes == t.nodes - {id};
    ThroughHeadDropsKey(t.nodes, chain, s, |t.slots|, p, q);
  }

  /**
   * The same bucket after `ChainedTable.Release`, which takes out only the freed
   * bucket: its key still yields its value.
   */
  lemma ReleaseKeepsFront<V>(t: Table<V>, id: Id, q: nat)
    requires Valid(t) && id in t.nodes && id !in t.usage
    requires var chain := t.slots[SlotIndex(DjbHash(t.nodes[id].key), |t.slots|)];
             0 < q < IndexOf(chain, id)
    ensures var b := t.slots[SlotIndex(DjbHash(t.nodes[id].key), |t.slots|)][q];
            ValueOf(Release(t, id), t.nodes[b].key) == Some(t.nodes[b].val)
  {
    var s := SlotIndex(DjbHash(t.nodes[id].key), |t.slots|);
    var b := t.slots[s][q];
    assert ChainValid(t.nodes, t.slots[s], s, |t.slots|);
    assert b != id;
    FindHolder(Release(t, id), t.nodes[b].key, b);
  }
}
