/**
 * One hash table of the dictionary (dict.h `struct ht`, dict.c `ht_*`).
 *
 * Buckets are kept in an arena indexed by handles instead of pointers. A slot is
 * the collision chain of the buckets whose key hashes to it: element 0 is the
 * resident head that lives inside the slot array, every later element an
 * overflow bucket allocated on its own. An empty chain is a head whose key is
 * still NULL. Separately, the usage list (`first`, threaded through `next`)
 * holds the buckets the table has handed out, most recent first.
 */
module ChainedTable {

  import opened Options
  import opened Djb

  /** Handle of a bucket: stands for a `struct bucket *`. */
  type Id = nat

  /** What a bucket stores: the key it was inserted under and the caller's value. */
  datatype Entry<V> = Entry(key: Key, val: V)

  /**
   * `slots[s]` is the chain of slot s; `nodes` holds every bucket that is still
   * allocated; `usage` is the list from `first`; `nextId` is the next unused handle.
   */
  datatype Table<V> = Table(slots: seq<seq<Id>>, nodes: map<Id, Entry<V>>, usage: seq<Id>, nextId: Id)

  /** `ht->sz`, the number of slots. */
  function Capacity<V>(t: Table<V>): nat
  {
    |t.slots|
  }

  /**
   * `h % sz`, the slot a hash selects, written as repeated subtraction so that
   * the solver never faces a remainder by an unknown capacity;
   * `SlotIndexIsRemainder` shows it is the remainder.
   */
  function SlotIndex(h: nat, sz: nat): (s: nat)
    requires sz > 0
    ensures s < sz
    decreases h
  {
    if h < sz then h else SlotIndex(h - sz, sz)
  }

  /** `SlotIndex` is the remainder of `h` by `sz`: some quotient `q` gives `h == q * sz + SlotIndex(h, sz)`. */
  lemma {:induction false} SlotIndexIsRemainder(h: nat, sz: nat) returns (q: nat)
    requires sz > 0
    ensures h == q * sz + SlotIndex(h, sz)
    decreases h
  {
    if h < sz {
      q := 0;
    } else {
      var q' := SlotIndexIsRemainder(h - sz, sz);
      q := q' + 1;
    }
  }

  /** Every bucket of a chain is allocated, sits in the slot its key hashes to, and holds a key no other bucket of the chain holds. */
  ghost predicate ChainValid<V>(nodes: map<Id, Entry<V>>, chain: seq<Id>, slot: nat, cap: nat)
    requires cap > 0
  {
    && (forall i | 0 <= i < |chain| :: chain[i] in nodes && SlotIndex(DjbHash(nodes[chain[i]].key), cap) == slot)
    && (forall i, j | 0 <= i < j < |chain| :: nodes[chain[i]].key != nodes[chain[j]].key)
  }

  /**
   * The representation invariant every table reachable from `ht_new` keeps:
   * well-formed chains, every allocated bucket in the chain of its key's slot,
   * handles below `nextId`, and a usage list of distinct allocated buckets.
   */
  ghost predicate Valid<V>(t: Table<V>)
  {
    && |t.slots| > 0
    && (forall s | 0 <= s < |t.slots| :: ChainValid(t.nodes, t.slots[s], s, |t.slots|))
    && (forall id | id in t.nodes :: id < t.nextId && id in t.slots[SlotIndex(DjbHash(t.nodes[id].key), |t.slots|)])
    && (forall i | 0 <= i < |t.usage| :: t.usage[i] in t.nodes)
    && Distinct(t.usage)
  }

  /** `ht_new`: `sz` slots whose heads are all empty, and an empty usage list. */
  function NewTable<V>(sz: nat): (t: Table<V>)
    requires sz > 0
    ensures Valid(t)
    ensures Capacity(t) == sz && t.usage == []
    ensures forall k :: Find(t, k).None?
  {
    Table(seq(sz, _ => []), map[], [], 0)
  }

  /**
   * Position of the first bucket of `chain` whose key has the same length and
   * bytes as `k`, or `|chain|` when there is none: the scan shared by the loops
   * of `ht_insert` and `ht_get`.
   */
  function FirstMatch<V>(nodes: map<Id, Entry<V>>, chain: seq<Id>, k: Key): (i: nat)
    requires forall j | 0 <= j < |chain| :: chain[j] in nodes
    ensures i <= |chain|
    ensures forall j | 0 <= j < i :: nodes[chain[j]].key != k
    ensures i < |chain| ==> nodes[chain[i]].key == k
    decreases |chain|
  {
    if |chain| == 0 then 0
    else if nodes[chain[0]].key == k then 0
    else 1 + FirstMatch(nodes, chain[1..], k)
  }

  /**
   * `ht_get`: the first bucket of slot `h % sz`'s chain that holds `k`, or None.
   * The hash is supplied by the caller, as in the source.
   */
  function Lookup<V>(t: Table<V>, h: nat, k: Key): (r: Option<Id>)
    requires Valid(t)
    ensures r.Some? ==> r.value in t.slots[SlotIndex(h, Capacity(t))] && r.value in t.nodes && t.nodes[r.value].key == k
    ensures r.Some? ==> forall j | 0 <= j < |t.slots[SlotIndex(h, Capacity(t))]| && t.slots[SlotIndex(h, Capacity(t))][j] == r.value ::
                          forall i | 0 <= i < j :: t.nodes[t.slots[SlotIndex(h, Capacity(t))][i]].key != k
    ensures r.None? <==> forall j | 0 <= j < |t.slots[SlotIndex(h, Capacity(t))]| :: t.nodes[t.slots[SlotIndex(h, Capacity(t))][j]].key != k
  {
    var chain := t.slots[SlotIndex(h, |t.slots|)];
    var i := FirstMatch(t.nodes, chain, k);
    if i < |chain| then Some(chain[i]) else None
  }

  /** Lookup with the key's own hash, as every caller in dict.c does. */
  function Find<V>(t: Table<V>, k: Key): Option<Id>
    requires Valid(t)
  {
    Lookup(t, DjbHash(k), k)
  }

  /** The value the table yields for `k`: the value of the bucket `Find` returns. */
  function ValueOf<V>(t: Table<V>, k: Key): Option<V>
    requires Valid(t)
  {
    match Find(t, k)
    case Some(id) => Some(t.nodes[id].val)
    case None => None
  }

  /**
   * A key is held by at most one bucket of a valid table, and `Find` returns that
   * bucket: lookups are decided by the arena alone.
   */
  lemma FindHolder<V>(t: Table<V>, k: Key, id: Id)
    requires Valid(t)
    requires id in t.nodes && t.nodes[id].key == k
    ensures Find(t, k) == Some(id)
  {
    var chain := t.slots[SlotIndex(DjbHash(k), |t.slots|)];
    assert ChainValid(t.nodes, chain, SlotIndex(DjbHash(k), |t.slots|), |t.slots|);
    var p :| 0 <= p < |chain| && chain[p] == id;
    var i := FirstMatch(t.nodes, chain, k);
    assert i <= p;
  }

  /** The bucket `Find` returns for `k` holds `k`; when it returns None, no bucket holds `k`. */
  lemma FindNone<V>(t: Table<V>, k: Key)
    requires Valid(t)
    requires Find(t, k).None?
    ensures forall id | id in t.nodes :: t.nodes[id].key != k
  {
    forall id | id in t.nodes
      ensures t.nodes[id].key != k
    {
      if t.nodes[id].key == k {
        FindHolder(t, k, id);
      }
    }
  }

  /** Two valid tables whose buckets holding `k` are the same yield the same value for `k`. */
  lemma SameHoldersSameValue<V>(t1: Table<V>, t2: Table<V>, k: Key)
    requires Valid(t1) && Valid(t2)
    requires forall id | id in t1.nodes && t1.nodes[id].key == k :: id in t2.nodes && t2.nodes[id] == t1.nodes[id]
    requires forall id | id in t2.nodes && t2.nodes[id].key == k :: id in t1.nodes && t1.nodes[id] == t2.nodes[id]
    ensures ValueOf(t1, k) == ValueOf(t2, k)
  {
    match Find(t1, k)
    case Some(id) =>
      FindHolder(t2, k, id);
    case None =>
      FindNone(t1, k);
      if Find(t2, k).Some? {
        FindHolder(t1, k, Find(t2, k).value);
      }
  }

  /** The outcome of `ht_insert`: the table, and the new bucket or None for a replacement. */
  datatype Inserted<V> = Inserted(table: Table<V>, created: Option<Id>)

  /** Where a new bucket enters a chain: the head when the chain is empty, else right after it. */
  function NewPosition(chain: seq<Id>): nat
  {
    if |chain| == 0 then 0 else 1
  }

  /**
   * `ht_insert`. If a bucket of the key's chain already holds `k`, only its value
   * is overwritten and None is returned. Otherwise a fresh bucket holding
   * `(k, v)` fills the empty head or is spliced in right after the head. The
   * usage list is never touched here.
   */
  function Insert<V>(t: Table<V>, k: Key, v: V): (r: Inserted<V>)
    requires Valid(t)
    ensures Valid(r.table)
    ensures Capacity(r.table) == Capacity(t) && r.table.usage == t.usage
    ensures Find(t, k).Some? ==>
              && r.created.None?
              && r.table.slots == t.slots
              && r.table.nodes == t.nodes[Find(t, k).value := Entry(k, v)]
    ensures Find(t, k).None? ==>
              && r.created.Some?
              && r.created.value !in t.nodes
              && r.table.nodes == t.nodes[r.created.value := Entry(k, v)]
              && (forall s | 0 <= s < Capacity(t) && s != SlotIndex(DjbHash(k), Capacity(t)) :: r.table.slots[s] == t.slots[s])
              && var c, c' := t.slots[SlotIndex(DjbHash(k), Capacity(t))], r.table.slots[SlotIndex(DjbHash(k), Capacity(t))];
                 var p := NewPosition(c);
                 |c'| == |c| + 1 && c'[p] == r.created.value && c'[..p] + c'[p + 1..] == c
  {
    var s := SlotIndex(DjbHash(k), |t.slots|);
    var chain := t.slots[s];
    match Lookup(t, DjbHash(k), k)
    case Some(id) =>
      var t' := t.(nodes := t.nodes[id := Entry(k, v)]);
      assert forall i | 0 <= i < |chain| && chain[i] != id :: t'.nodes[chain[i]] == t.nodes[chain[i]];
      OverwriteKeepsValid(t, id, k, v);
      Inserted(t', None)
    case None =>
      AddFreshShape(t, k, v);
      Inserted(Table(t.slots[s := Splice(chain, t.nextId)], t.nodes[t.nextId := Entry(k, v)], t.usage, t.nextId + 1), Some(t.nextId))
  }

  /** The table a fresh insert builds keeps the invariant, holds one new bucket, and differs from the old one only in the key's chain. */
  lemma AddFreshShape<V>(t: Table<V>, k: Key, v: V)
    requires Valid(t) && Find(t, k).None?
    ensures var s := SlotIndex(DjbHash(k), |t.slots|);
            var r := Table(t.slots[s := Splice(t.slots[s], t.nextId)], t.nodes[t.nextId := Entry(k, v)], t.usage, t.nextId + 1);
            && Valid(r)
            && t.nextId !in t.nodes
            && (forall s' | 0 <= s' < |t.slots| && s' != s :: r.slots[s'] == t.slots[s'])
            && var c, c', p := t.slots[s], r.slots[s], NewPosition(t.slots[s]);
               |c'| == |c| + 1 && c'[p] == t.nextId && c'[..p] + c'[p + 1..] == c
  {
    AddFreshKeepsValid(t, k, v);
    SpliceShape(t.slots[SlotIndex(DjbHash(k), |t.slots|)], t.nextId);
  }

  /** Overwriting the value of a bucket that holds `k` keeps the invariant. */
  lemma OverwriteKeepsValid<V>(t: Table<V>, id: Id, k: Key, v: V)
    requires Valid(t) && id in t.nodes && t.nodes[id].key == k
    ensures Valid(t.(nodes := t.nodes[id := Entry(k, v)]))
  {
    var t' := t.(nodes := t.nodes[id := Entry(k, v)]);
    assert forall i | i in t.nodes :: t'.nodes[i].key == t.nodes[i].key;
    forall s | 0 <= s < |t.slots|
      ensures ChainValid(t'.nodes, t'.slots[s], s, |t.slots|)
    {
      assert ChainValid(t.nodes, t.slots[s], s, |t.slots|);
    }
  }

  /** The chain after a new bucket enters it: as the head of an empty chain, else right after the head. */
  function Splice(chain: seq<Id>, id: Id): (c: seq<Id>)
  {
    if |chain| == 0 then [id] else [chain[0], id] + chain[1..]
  }

  /** Splicing puts the bucket at `NewPosition` and leaves the rest of the chain in order around it. */
  lemma SpliceShape(chain: seq<Id>, id: Id)
    ensures var c, p := Splice(chain, id), NewPosition(chain);
            |c| == |chain| + 1 && c[p] == id && c[..p] + c[p + 1..] == chain
  {
    if |chain| > 0 {
      var c := Splice(chain, id);
      assert c[..1] + c[2..] == [chain[0]] + chain[1..];
    }
  }

  /** A chain stays valid when a bucket outside it is allocated. */
  lemma ChainValidFrame<V>(nodes: map<Id, Entry<V>>, chain: seq<Id>, slot: nat, cap: nat, id: Id, e: Entry<V>)
    requires cap > 0 && ChainValid(nodes, chain, slot, cap) && id !in nodes
    ensures ChainValid(nodes[id := e], chain, slot, cap)
  {
    assert forall i | 0 <= i < |chain| :: chain[i] != id;
  }

  /** A chain stays valid when a fresh bucket whose key hashes there, and is not yet in it, is spliced in. */
  lemma ChainValidSplice<V>(nodes: map<Id, Entry<V>>, chain: seq<Id>, slot: nat, cap: nat, id: Id, e: Entry<V>)
    requires cap > 0 && ChainValid(nodes, chain, slot, cap) && id !in nodes
    requires SlotIndex(DjbHash(e.key), cap) == slot
    requires forall i | 0 <= i < |chain| :: nodes[chain[i]].key != e.key
    ensures ChainValid(nodes[id := e], Splice(chain, id), slot, cap)
  {
    var nodes' := nodes[id := e];
    var c := Splice(chain, id);
    assert forall i | 0 <= i < |chain| :: chain[i] != id;
    if |chain| > 0 {
      assert forall i | 2 <= i < |c| :: c[i] == chain[i - 1];
      forall i, j | 0 <= i < j < |c|
        ensures nodes'[c[i]].key != nodes'[c[j]].key
      {
        if i == 1 || j == 1 {
        } else {
          assert c[i] == chain[if i == 0 then 0 else i - 1] && c[j] == chain[j - 1];
        }
      }
    }
  }

  /** Splicing a fresh bucket holding a key absent from its chain keeps the invariant. */
  lemma AddFreshKeepsValid<V>(t: Table<V>, k: Key, v: V)
    requires Valid(t)
    requires Find(t, k).None?
    ensures var s := SlotIndex(DjbHash(k), |t.slots|);
            Valid(Table(t.slots[s := Splice(t.slots[s], t.nextId)], t.nodes[t.nextId := Entry(k, v)], t.usage, t.nextId + 1))
  {
    var s := SlotIndex(DjbHash(k), |t.slots|);
    var chain := t.slots[s];
    var id := t.nextId;
    var e := Entry(k, v);
    var t' := Table(t.slots[s := Splice(chain, id)], t.nodes[id := e], t.usage, t.nextId + 1);
    assert id !in t.nodes;
    forall s' | 0 <= s' < |t.slots|
      ensures ChainValid(t'.nodes, t'.slots[s'], s', |t.slots|)
    {
      assert ChainValid(t.nodes, t.slots[s'], s', |t.slots|);
      if s' == s {
        ChainValidSplice(t.nodes, chain, s, |t.slots|, id, e);
      } else {
        ChainValidFrame(t.nodes, t.slots[s'], s', |t.slots|, id, e);
      }
    }
    forall x | x in t'.nodes
      ensures x < t'.nextId && x in t'.slots[SlotIndex(DjbHash(t'.nodes[x].key), |t.slots|)]
    {
      if x != id {
        var sx := SlotIndex(DjbHash(t.nodes[x].key), |t.slots|);
        assert x in t.slots[sx];
        if sx == s {
          assert x in Splice(chain, id);
        }
      }
    }
  }

  /**
   * `ht_record_used_bucket`: a bucket just handed out by `Insert` becomes the new
   * `first` of the usage list, in front of the previous list.
   */
  function RecordUsed<V>(t: Table<V>, id: Id): (r: Table<V>)
    requires Valid(t) && id in t.nodes && id !in t.usage
    ensures Valid(r)
    ensures r.slots == t.slots && r.nodes == t.nodes
    ensures |r.usage| == |t.usage| + 1 && r.usage[0] == id && r.usage[1..] == t.usage
  {
    t.(usage := [id] + t.usage)
  }

  /** Whether a bucket is the resident head of its chain (`collision_prev` is NULL). */
  predicate IsHead<V>(t: Table<V>, id: Id)
    requires Valid(t) && id in t.nodes
  {
    var chain := t.slots[SlotIndex(DjbHash(t.nodes[id].key), |t.slots|)];
    |chain| > 0 && chain[0] == id
  }

  /** Position of a bucket in a sequence that contains it. */
  function IndexOf(s: seq<Id>, id: Id): (p: nat)
    requires id in s
    ensures p < |s| && s[p] == id
    ensures forall j | 0 <= j < p :: s[j] != id
  {
    if s[0] == id then 0 else 1 + IndexOf(s[1..], id)
  }

  /**
   * `bucket_free`: an overflow bucket is unlinked from its chain and freed, so its
   * key is gone from the table; a resident head is left exactly as it was, still
   * holding its key and value. The caller unlinks the bucket from the usage list first.
   * This is the free with correct back links; the code as written links the head
   * past the bucket instead (`CollisionLinks.FreeThroughHead`), which differs from
   * this at chain position 2 onwards.
   */
  function Release<V>(t: Table<V>, id: Id): (r: Table<V>)
    requires Valid(t) && id in t.nodes && id !in t.usage
    ensures Valid(r)
    ensures Capacity(r) == Capacity(t) && r.usage == t.usage
    ensures IsHead(t, id) ==> r == t
    ensures !IsHead(t, id) ==>
              && r.nodes == t.nodes - {id}
              && Find(r, t.nodes[id].key).None?
              && var s := SlotIndex(DjbHash(t.nodes[id].key), Capacity(t));
                 && 0 < IndexOf(t.slots[s], id)
                 && r.slots == t.slots[s := Unlink(t.slots[s], IndexOf(t.slots[s], id))]
  {
    var s := SlotIndex(DjbHash(t.nodes[id].key), |t.slots|);
    var chain := t.slots[s];
    var p := IndexOf(chain, id);
    if p == 0 then t
    else
      UnlinkKeepsValid(t, id, s, p);
      t.(slots := t.slots[s := Unlink(chain, p)], nodes := t.nodes - {id})
  }

  /** A list with the element at position p taken out, the others kept in order. */
  function Unlink<T>(s: seq<T>, p: nat): seq<T>
    requires p < |s|
  {
    s[..p] + s[p + 1..]
  }

  /** Taking a bucket out of its chain and freeing it leaves the chain valid and without it. */
  lemma ChainValidUnlink<V>(nodes: map<Id, Entry<V>>, chain: seq<Id>, slot: nat, cap: nat, p: nat)
    requires cap > 0 && ChainValid(nodes, chain, slot, cap) && p < |chain|
    ensures ChainValid(nodes - {chain[p]}, Unlink(chain, p), slot, cap)
    ensures forall x | x in chain && x != chain[p] :: x in Unlink(chain, p)
  {
    var c := Unlink(chain, p);
    assert forall i | 0 <= i < |c| :: c[i] == if i < p then chain[i] else chain[i + 1];
    forall i | 0 <= i < |c|
      ensures c[i] != chain[p]
    {
      if i >= p {
        assert nodes[chain[p]].key != nodes[chain[i + 1]].key;
      }
    }
    forall x | x in chain && x != chain[p]
      ensures x in c
    {
      var q :| 0 <= q < |chain| && chain[q] == x;
      if q < p {
        assert c[q] == x;
      } else {
        assert c[q - 1] == x;
      }
    }
  }

  /** A chain that does not contain a bucket stays valid when that bucket is freed. */
  lemma ChainValidFree<V>(nodes: map<Id, Entry<V>>, chain: seq<Id>, slot: nat, cap: nat, id: Id)
    requires cap > 0 && ChainValid(nodes, chain, slot, cap) && id !in chain
    ensures ChainValid(nodes - {id}, chain, slot, cap)
  {
  }

  /** Unlinking an overflow bucket from its chain and freeing it keeps the invariant and forgets its key. */
  lemma UnlinkKeepsValid<V>(t: Table<V>, id: Id, s: nat, p: nat)
    requires Valid(t) && id in t.nodes && id !in t.usage
    requires s == SlotIndex(DjbHash(t.nodes[id].key), |t.slots|)
    requires id in t.slots[s] && 0 < p == IndexOf(t.slots[s], id)
    ensures var r := t.(slots := t.slots[s := Unlink(t.slots[s], p)], nodes := t.nodes - {id});
            Valid(r) && Find(r, t.nodes[id].key).None?
  {
    var k := t.nodes[id].key;
    var chain := t.slots[s];
    var r := t.(slots := t.slots[s := Unlink(chain, p)], nodes := t.nodes - {id});
    forall s' | 0 <= s' < |t.slots|
      ensures ChainValid(r.nodes, r.slots[s'], s', |t.slots|)
    {
      assert ChainValid(t.nodes, t.slots[s'], s', |t.slots|);
      if s' == s {
        ChainValidUnlink(t.nodes, chain, s, |t.slots|, p);
      } else {
        assert id !in t.slots[s'];
        ChainValidFree(t.nodes, t.slots[s'], s', |t.slots|, id);
      }
    }
    ChainValidUnlink(t.nodes, chain, s, |t.slots|, p);
    forall x | x in r.nodes
      ensures x < r.nextId && x in r.slots[SlotIndex(DjbHash(r.nodes[x].key), |r.slots|)]
    {
      assert x in t.slots[SlotIndex(DjbHash(t.nodes[x].key), |t.slots|)];
    }
    if Find(r, k).Some? {
      var x := Find(r, k).value;
      FindHolder(t, k, x);
      FindHolder(t, k, id);
      assert false;
    }
  }

  /**
   * A new or replaced value is what the table yields for its key afterwards, and
   * every other key yields what it yielded before.
   */
  lemma InsertUpdatesView<V>(t: Table<V>, k: Key, v: V, k': Key)
    requires Valid(t)
    ensures ValueOf(Insert(t, k, v).table, k') == if k' == k then Some(v) else ValueOf(t, k')
  {
    var r := Insert(t, k, v).table;
    var id := if Find(t, k).Some? then Find(t, k).value else Insert(t, k, v).created.value;
    assert r.nodes == t.nodes[id := Entry(k, v)];
    if k' == k {
      FindHolder(r, k, id);
    } else {
      SameHoldersSameValue(t, r, k');
    }
  }

  /** Freeing a bucket, with correct back links, does not change what the table yields for any other key. */
  lemma ReleaseKeepsOthers<V>(t: Table<V>, id: Id, k': Key)
    requires Valid(t) && id in t.nodes && id !in t.usage
    requires k' != t.nodes[id].key
    ensures ValueOf(Release(t, id), k') == ValueOf(t, k')
  {
    SameHoldersSameValue(t, Release(t, id), k');
  }

  /** Distinct buckets of a sequence. */
  predicate Distinct(u: seq<Id>)
  {
    forall i, j | 0 <= i < j < |u| :: u[i] != u[j]
  }

  /** Relinking the usage list through some of its own buckets keeps the invariant. */
  lemma RelistValid<V>(t: Table<V>, u: seq<Id>)
    requires Valid(t) && Distinct(u)
    requires forall i | 0 <= i < |u| :: u[i] in t.usage
    ensures Valid(t.(usage := u))
  {
    var t' := t.(usage := u);
    forall s | 0 <= s < |t.slots|
      ensures ChainValid(t'.nodes, t'.slots[s], s, |t.slots|)
    {
      assert ChainValid(t.nodes, t.slots[s], s, |t.slots|);
    }
  }

  /**
   * The walk `for(b = first; b; b = b->next)` over one table: the key and value
   * of every bucket of the usage list, in list order.
   */
  function Visit<V>(t: Table<V>): (ps: seq<(Key, V)>)
    requires Valid(t)
    ensures |ps| == |t.usage|
    ensures forall i | 0 <= i < |ps| :: t.usage[i] in t.nodes && ps[i] == (t.nodes[t.usage[i]].key, t.nodes[t.usage[i]].val)
    ensures forall i, j | 0 <= i < j < |ps| :: ps[i].0 != ps[j].0
  {
    ListedKeysDistinct(t);
    seq(|t.usage|, i requires 0 <= i < |t.usage| && t.usage[i] in t.nodes => (t.nodes[t.usage[i]].key, t.nodes[t.usage[i]].val))
  }

  /** Freeing an unlisted bucket leaves the walk as it was. */
  lemma ReleaseVisit<V>(t: Table<V>, id: Id)
    requires Valid(t) && id in t.nodes && id !in t.usage
    ensures Visit(Release(t, id)) == Visit(t)
  {
    var r := Release(t, id);
    if !IsHead(t, id) {
      assert forall i | 0 <= i < |t.usage| :: t.usage[i] != id;
    }
  }

  /** No key is held by two buckets of the usage list, since a key is held by at most one bucket. */
  lemma ListedKeysDistinct<V>(t: Table<V>)
    requires Valid(t)
    ensures forall i, j | 0 <= i < j < |t.usage| :: t.nodes[t.usage[i]].key != t.nodes[t.usage[j]].key
  {
    forall i, j | 0 <= i < j < |t.usage|
      ensures t.nodes[t.usage[i]].key != t.nodes[t.usage[j]].key
    {
      var k := t.nodes[t.usage[i]].key;
      if t.nodes[t.usage[j]].key == k {
        FindHolder(t, k, t.usage[i]);
        FindHolder(t, k, t.usage[j]);
      }
    }
  }
}
