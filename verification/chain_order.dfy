/**
 * The order in which a table's buckets sit on its usage list, compared with
 * their order in the collision chains.
 *
 * A new overflow bucket enters its chain right after the head (dict.c:89-95)
 * and its usage list at the front (dict.c:120-128), so the overflow buckets of
 * a chain are listed newest first, which is chain order. Every step of the
 * dictionary keeps that, so the bucket at the front of a usage list is a
 * resident head or at chain position 1. Migration frees exactly that bucket
 * (dict.c:163-176), so it never meets the stale `collision_prev` of
 * `CollisionLinks`: there the code as written and `ChainedTable.Release` agree.
 */
module ChainOrder {

  import opened Options
  import opened Djb
  import opened ChainedTable
  import opened Dictionary
  import opened CollisionLinks

  /**
   * Every overflow bucket of the chain (position 1 onwards) is on the usage
   * list, and of two of them the one nearer the head is listed first.
   */
  ghost predicate ChainInListOrder(c: seq<Id>, u: seq<Id>)
  {
    forall i, j | 1 <= i <= j < |c| :: c[i] in u && c[j] in u && (i < j ==> IndexOf(u, c[i]) < IndexOf(u, c[j]))
  }

  /** Every chain lists its overflow buckets in chain order. */
  ghost predicate InListOrder(slots: seq<seq<Id>>, u: seq<Id>)
  {
    forall s | 0 <= s < |slots| :: ChainInListOrder(slots[s], u)
  }

  /** A table whose overflow buckets are listed in chain order. */
  ghost predicate Ordered<V>(t: Table<V>)
  {
    InListOrder(t.slots, t.usage)
  }

  /** Both tables of the dictionary list their overflow buckets in chain order. */
  ghost predicate DictOrdered<V>(d: Dict<V>)
  {
    Ordered(d.ht) && (d.htOld.Some? ==> Ordered(d.htOld.value))
  }

  /** In a list of distinct buckets, the position of a bucket is the one place it occurs. */
  lemma IndexOfAt(u: seq<Id>, x: Id, p: nat)
    requires Distinct(u) && p < |u| && u[p] == x
    ensures IndexOf(u, x) == p
  {
  }

  /** Putting a bucket in front of a list moves every other bucket one place back. */
  lemma IndexOfCons(u: seq<Id>, id: Id, x: Id)
    requires x in u && x != id
    ensures x in [id] + u && IndexOf([id] + u, x) == 1 + IndexOf(u, x)
  {
    assert ([id] + u)[1..] == u;
  }

  /** Taking position q out of a list of distinct buckets moves the buckets behind it one place forward. */
  lemma IndexOfUnlink(u: seq<Id>, q: nat, x: Id)
    requires Distinct(u) && q < |u| && x in u && x != u[q]
    ensures x in Unlink(u, q)
    ensures IndexOf(Unlink(u, q), x) == if IndexOf(u, x) < q then IndexOf(u, x) else IndexOf(u, x) - 1
  {
    var v := Unlink(u, q);
    var p := IndexOf(u, x);
    assert forall i | 0 <= i < |v| :: v[i] == if i < q then u[i] else u[i + 1];
    assert Distinct(v);
    var p' := if p < q then p else p - 1;
    assert v[p'] == x;
    IndexOfAt(v, x, p');
  }

  /** Two buckets other than position q stay on the list without it, in the same order. */
  lemma UnlinkKeepsBefore(u: seq<Id>, q: nat, a: Id, b: Id)
    requires Distinct(u) && q < |u| && a in u && b in u && a != u[q] && b != u[q]
    ensures a in Unlink(u, q) && b in Unlink(u, q)
    ensures IndexOf(u, a) < IndexOf(u, b) ==> IndexOf(Unlink(u, q), a) < IndexOf(Unlink(u, q), b)
  {
    IndexOfUnlink(u, q, a);
    IndexOfUnlink(u, q, b);
  }

  /** A chain without `id` stays in list order when `id` is put in front of the usage list. */
  lemma ConsInOrder(c: seq<Id>, u: seq<Id>, id: Id)
    requires ChainInListOrder(c, u) && id !in c
    ensures ChainInListOrder(c, [id] + u)
  {
    forall i, j | 1 <= i <= j < |c|
      ensures c[i] in [id] + u && c[j] in [id] + u && (i < j ==> IndexOf([id] + u, c[i]) < IndexOf([id] + u, c[j]))
    {
      IndexOfCons(u, id, c[i]);
      IndexOfCons(u, id, c[j]);
    }
  }

  /**
   * A fresh bucket spliced in right after the head of a non-empty chain and put
   * in front of the usage list keeps that chain in list order.
   */
  lemma SpliceInOrder(c: seq<Id>, u: seq<Id>, id: Id)
    requires ChainInListOrder(c, u) && id !in c && id !in u
    ensures ChainInListOrder(Splice(c, id), [id] + u)
  {
    var c' := Splice(c, id);
    var u' := [id] + u;
    if |c| > 0 {
      assert forall m | 2 <= m < |c'| :: c'[m] == c[m - 1];
      forall i, j | 1 <= i <= j < |c'|
        ensures c'[i] in u' && c'[j] in u' && (i < j ==> IndexOf(u', c'[i]) < IndexOf(u', c'[j]))
      {
        if j >= 2 {
          IndexOfCons(u, id, c[j - 1]);
        }
        if i >= 2 {
          IndexOfCons(u, id, c[i - 1]);
        }
      }
    }
  }

  /**
   * A fresh bucket spliced in after the head of its chain and put at the front
   * of the usage list keeps the overflow buckets in chain order.
   */
  lemma PushInOrder(slots: seq<seq<Id>>, u: seq<Id>, s0: nat, id: Id)
    requires InListOrder(slots, u) && s0 < |slots| && id !in u
    requires forall s | 0 <= s < |slots| :: id !in slots[s]
    ensures InListOrder(slots[s0 := Splice(slots[s0], id)], [id] + u)
  {
    var slots' := slots[s0 := Splice(slots[s0], id)];
    forall s | 0 <= s < |slots'|
      ensures ChainInListOrder(slots'[s], [id] + u)
    {
      if s == s0 {
        SpliceInOrder(slots[s0], u, id);
      } else {
        ConsInOrder(slots[s], u, id);
      }
    }
  }

  /** A chain without the bucket at position q of the usage list stays in list order without it. */
  lemma UnlistInOrder(c: seq<Id>, u: seq<Id>, q: nat)
    requires ChainInListOrder(c, u) && Distinct(u) && q < |u|
    requires forall i | 1 <= i < |c| :: c[i] != u[q]
    ensures ChainInListOrder(c, Unlink(u, q))
  {
    forall i, j | 1 <= i <= j < |c|
      ensures c[i] in Unlink(u, q) && c[j] in Unlink(u, q) && (i < j ==> IndexOf(Unlink(u, q), c[i]) < IndexOf(Unlink(u, q), c[j]))
    {
      UnlinkKeepsBefore(u, q, c[i], c[j]);
    }
  }

  /** Taking the overflow bucket at chain position p off both its chain and the usage list keeps the chain in list order. */
  lemma UnlinkInOrder(c: seq<Id>, u: seq<Id>, q: nat, p: nat)
    requires ChainInListOrder(c, u) && Distinct(u) && Distinct(c) && q < |u|
    requires 0 < p < |c| && c[p] == u[q]
    ensures ChainInListOrder(Unlink(c, p), Unlink(u, q))
  {
    var c' := Unlink(c, p);
    forall i, j | 1 <= i <= j < |c'|
      ensures c'[i] in Unlink(u, q) && c'[j] in Unlink(u, q) && (i < j ==> IndexOf(Unlink(u, q), c'[i]) < IndexOf(Unlink(u, q), c'[j]))
    {
      var i', j' := if i < p then i else i + 1, if j < p then j else j + 1;
      assert c'[i] == c[i'] && c'[j] == c[j'];
      UnlinkPairInOrder(c, u, q, p, i', j');
    }
  }

  /** One pair of the chain's other overflow buckets keeps its order on the shortened usage list. */
  lemma UnlinkPairInOrder(c: seq<Id>, u: seq<Id>, q: nat, p: nat, i: nat, j: nat)
    requires ChainInListOrder(c, u) && Distinct(u) && Distinct(c) && q < |u|
    requires p < |c| && c[p] == u[q] && 1 <= i <= j < |c| && i != p && j != p
    ensures c[i] in Unlink(u, q) && c[j] in Unlink(u, q) && (i < j ==> IndexOf(Unlink(u, q), c[i]) < IndexOf(Unlink(u, q), c[j]))
  {
    UnlinkKeepsBefore(u, q, c[i], c[j]);
  }

  /**
   * Taking a bucket off the usage list, and out of its chain unless it is the
   * head, keeps the remaining overflow buckets in chain order.
   */
  lemma DropInOrder(slots: seq<seq<Id>>, u: seq<Id>, q: nat, s0: nat, p: nat)
    requires InListOrder(slots, u) && Distinct(u) && q < |u|
    requires s0 < |slots| && p < |slots[s0]| && slots[s0][p] == u[q] && Distinct(slots[s0])
    requires forall s | 0 <= s < |slots| && s != s0 :: u[q] !in slots[s]
    ensures InListOrder(if p == 0 then slots else slots[s0 := Unlink(slots[s0], p)], Unlink(u, q))
  {
    var slots' := if p == 0 then slots else slots[s0 := Unlink(slots[s0], p)];
    forall s | 0 <= s < |slots'|
      ensures ChainInListOrder(slots'[s], Unlink(u, q))
    {
      if s == s0 && p > 0 {
        UnlinkInOrder(slots[s0], u, q, p);
      } else if s == s0 {
        assert forall i | 1 <= i < |slots[s0]| :: slots[s0][i] != slots[s0][0];
        UnlistInOrder(slots[s], u, q);
      } else {
        UnlistInOrder(slots[s], u, q);
      }
    }
  }

  /** The bucket at the front of the usage list is a head or sits at chain position 1: none from position 2 on is it. */
  lemma FrontInOrder(c: seq<Id>, u: seq<Id>)
    requires ChainInListOrder(c, u) && |u| > 0
    ensures forall j | 2 <= j < |c| :: c[j] != u[0]
  {
    assert IndexOf(u, u[0]) == 0;
    forall j | 2 <= j < |c|
      ensures c[j] != u[0]
    {
      assert IndexOf(u, c[1]) < IndexOf(u, c[j]);
    }
  }

  /** A new table has no overflow buckets. */
  lemma NewTableOrdered<V>(sz: nat)
    requires sz > 0
    ensures Ordered(NewTable<V>(sz)) && NewTable<V>(sz).usage == []
  {
    var t := NewTable<V>(sz);
    assert forall s | 0 <= s < sz :: t.slots[s] == [];
  }

  /** `ht_insert`, followed by `ht_record_used_bucket` when it made a bucket, keeps a table in list order. */
  lemma InsertOrdered<V>(t: Table<V>, k: Key, v: V)
    requires Valid(t) && Ordered(t)
    ensures var ins := Insert(t, k, v);
            && (ins.created.Some? ==> ins.created.value !in ins.table.usage)
            && (ins.created.None? ==> Ordered(ins.table))
            && (ins.created.Some? ==> Ordered(RecordUsed(ins.table, ins.created.value)))
  {
    var ins := Insert(t, k, v);
    if ins.created.Some? {
      var id := ins.created.value;
      var s0 := SlotIndex(DjbHash(k), |t.slots|);
      assert id == t.nextId && ins.table.slots == t.slots[s0 := Splice(t.slots[s0], id)];
      assert id !in t.usage;
      forall s | 0 <= s < |t.slots|
        ensures id !in t.slots[s]
      {
        assert ChainValid(t.nodes, t.slots[s], s, |t.slots|);
      }
      PushInOrder(t.slots, t.usage, s0, id);
    }
  }

  /**
   * Unlisting the bucket at position q of the usage list and then freeing it
   * (`dict_remove`, and one migration turn with q = 0) keeps a table in list order.
   */
  lemma UnlistReleaseOrdered<V>(t: Table<V>, q: nat)
    requires Valid(t) && Ordered(t) && q < |t.usage|
    ensures Valid(t.(usage := Unlink(t.usage, q)))
    ensures Ordered(Release(t.(usage := Unlink(t.usage, q)), t.usage[q]))
  {
    UnlistValid(t, q);
    var id := t.usage[q];
    var t' := t.(usage := Unlink(t.usage, q));
    var s0 := SlotIndex(DjbHash(t.nodes[id].key), |t.slots|);
    var p := IndexOf(t.slots[s0], id);
    forall s | 0 <= s < |t.slots| && s != s0
      ensures id !in t.slots[s]
    {
      assert ChainValid(t.nodes, t.slots[s], s, |t.slots|);
    }
    assert Distinct(t.slots[s0]) by {
      assert ChainValid(t.nodes, t.slots[s0], s0, |t.slots|);
    }
    DropInOrder(t.slots, t.usage, q, s0, p);
    assert Release(t', id).slots == if p == 0 then t.slots else t.slots[s0 := Unlink(t.slots[s0], p)];
  }

  /**
   * In a table in list order, the bucket a migration turn frees is a head or at
   * chain position 1, and there the code as written, which links the head past
   * it (`FreeThroughHead`), leaves the same table as `Release`.
   */
  lemma MigrationFreesFront<V>(t: Table<V>)
    requires Valid(t) && Ordered(t) && |t.usage| > 0
    ensures var id := t.usage[0];
            && id in t.nodes
            && IndexOf(t.slots[SlotIndex(DjbHash(t.nodes[id].key), |t.slots|)], id) <= 1
    ensures Valid(t.(usage := t.usage[1..]))
    ensures FreeThroughHead(t.(usage := t.usage[1..]), t.usage[0]) == Release(t.(usage := t.usage[1..]), t.usage[0])
  {
    var id := t.usage[0];
    var s0 := SlotIndex(DjbHash(t.nodes[id].key), |t.slots|);
    var c := t.slots[s0];
    var p := IndexOf(c, id);
    assert ChainInListOrder(c, t.usage);
    FrontInOrder(c, t.usage);
    DropFirstValid(t);
    if p == 1 {
      assert ThroughHead(c, 1) == Unlink(c, 1);
    }
  }

  /** One migration turn keeps both tables in list order. */
  lemma MoveFrontOrdered<V>(ht: Table<V>, retiring: Table<V>)
    requires Valid(ht) && Valid(retiring) && Ordered(ht) && Ordered(retiring) && |retiring.usage| > 0
    ensures Ordered(MoveFront(ht, retiring).active) && Ordered(MoveFront(ht, retiring).retiring)
  {
    var e := retiring.nodes[retiring.usage[0]];
    InsertOrdered(ht, e.key, e.val);
    UnlistReleaseOrdered(retiring, 0);
    assert Unlink(retiring.usage, 0) == retiring.usage[1..];
  }

  /** A batch of `n` turns, by its own recursion: it is `MoveBatch` and keeps both tables in list order. */
  ghost function OrderedBatch<V>(ht: Table<V>, retiring: Table<V>, n: nat): (r: Tables<V>)
    requires Valid(ht) && Valid(retiring) && Ordered(ht) && Ordered(retiring)
    ensures r == MoveBatch(ht, retiring, n)
    ensures Ordered(r.active) && Ordered(r.retiring)
    decreases n
  {
    if n == 0 || |retiring.usage| == 0 then Tables(ht, retiring)
    else
      var m := MoveFront(ht, retiring);
      MoveFrontOrdered(ht, retiring);
      OrderedBatch(m.active, m.retiring, n - 1)
  }

  /** `dict_new` gives a dictionary in list order. */
  lemma NewOrdered<V>(sz: nat)
    requires sz > 0
    ensures DictOrdered(New<V>(sz))
  {
    NewTableOrdered<V>(sz);
  }

  /** The growth step keeps the dictionary in list order: the new active table is empty. */
  lemma GrowOrdered<V>(d: Dict<V>)
    requires DictValid(d) && DictOrdered(d)
    ensures DictOrdered(Grow(d))
  {
    if NeedsGrowth(d) {
      NewTableOrdered<V>(2 * Capacity(d.ht));
    }
  }

  /** The insert step keeps the dictionary in list order. */
  lemma PutOrdered<V>(d: Dict<V>, k: Key, v: V)
    requires DictValid(d) && DictOrdered(d)
    ensures DictOrdered(Put(d, k, v))
  {
    InsertOrdered(d.ht, k, v);
  }

  /** `dict_rehash` keeps the dictionary in list order. */
  lemma RehashOrdered<V>(d: Dict<V>)
    requires DictValid(d) && DictOrdered(d)
    ensures DictOrdered(Rehash(d))
  {
    if d.htOld.Some? {
      var b := OrderedBatch(d.ht, d.htOld.value, REHASH_BATCH);
    }
  }

  /** `dict_add` keeps the dictionary in list order. */
  lemma AddOrdered<V>(d: Dict<V>, k: Key, v: V)
    requires DictValid(d) && DictOrdered(d)
    ensures DictOrdered(Add(d, k, v))
  {
    GrowOrdered(d);
    PutOrdered(Grow(d), k, v);
    RehashOrdered(Put(Grow(d), k, v));
  }

  /** `dict_remove` keeps the dictionary in list order. */
  lemma RemoveOrdered<V>(d: Dict<V>, k: Key)
    requires RemoveDefined(d, k) && DictOrdered(d)
    ensures DictOrdered(Remove(d, k).dict)
  {
    match Find(d.ht, k)
    case Some(b) =>
      UnlistReleaseOrdered(d.ht, IndexOf(d.ht.usage, b));
    case None =>
      match Find(d.htOld.value, k)
      case Some(b) =>
        UnlistReleaseOrdered(d.htOld.value, IndexOf(d.htOld.value.usage, b));
      case None =>
  }
}
