/**
 * The read-back check of hash.c: keys that are all different are added one by
 * one with `dict_add`, then every key is read back with `dict_get` and must
 * yield its own value, across growth and migration. Here `pairs` plays the
 * benchmark's key and value arrays and `m` the map they describe.
 *
 * The proof rests on `Inv`: the two tables together hold exactly `m`, the
 * count is the length of the two usage lists, and the backlog of the retiring
 * table is small enough that it is always drained before the next growth
 * overwrites `ht_old`.
 */
module ReadBack {

  import opened Options
  import opened Djb
  import opened ChainedTable
  import opened Dictionary

  /** The keys of a walk. */
  function KeysOf<V>(ps: seq<(Key, V)>): set<Key>
  {
    set i | 0 <= i < |ps| :: ps[i].0
  }

  /** Every bucket of the table holds a key of `m` with the value `m` gives it. */
  ghost predicate Agrees<V>(t: Table<V>, m: map<Key, V>)
  {
    forall id | id in t.nodes :: t.nodes[id].key in m && m[t.nodes[id].key] == t.nodes[id].val
  }

  /** Every bucket of the table is on its usage list: true of the active table of an add-only run. */
  ghost predicate Listed<V>(t: Table<V>)
  {
    forall id | id in t.nodes :: id in t.usage
  }

  /** The retiring table, or an empty one standing for `ht_old == NULL`. */
  function Retiring<V>(d: Dict<V>): (t: Table<V>)
    requires DictValid(d)
    ensures Valid(t)
    ensures d.htOld.None? ==> t.usage == [] && t.nodes == map[]
  {
    if d.htOld.Some? then d.htOld.value else NewTable(1)
  }

  /**
   * The active table and the retiring one together hold exactly `m`: each key of
   * `m` is found in the active table or still waits on the retiring usage list,
   * never both, and every bucket agrees with `m`.
   */
  ghost predicate Holds<V>(ht: Table<V>, retiring: Table<V>, m: map<Key, V>)
    requires Valid(ht) && Valid(retiring)
  {
    && Agrees(ht, m) && Agrees(retiring, m) && Listed(ht)
    && (forall k {:trigger ValueOf(ht, k)} | k in m :: ValueOf(ht, k).Some? || k in KeysOf(Visit(retiring)))
    && (forall k | k in KeysOf(Visit(retiring)) :: ValueOf(ht, k).None?)
  }

  /** The invariant of a dictionary built by adding the pairs of `m` once each. */
  ghost predicate Inv<V>(d: Dict<V>, m: map<Key, V>)
  {
    && DictValid(d)
    && Holds(d.ht, Retiring(d), m)
    && (d.htOld.Some? ==> |d.htOld.value.usage| > 0)
    && d.count == |d.ht.usage| + |Retiring(d).usage|
    && |Retiring(d).usage| + REHASH_BATCH * d.count <= REHASH_BATCH * (3 * Capacity(d.ht) / 4) + REHASH_BATCH
  }

  /** The keys of a walk, split at its first pair. */
  lemma KeysOfFront<V>(ps: seq<(Key, V)>)
    requires |ps| > 0
    ensures KeysOf(ps) == {ps[0].0} + KeysOf(ps[1..])
  {
    assert ps == [ps[0]] + ps[1..];
  }

  /** A walk's keys are the keys of buckets of the table, and a table that agrees with `m` has only keys of `m`. */
  lemma VisitKeysIn<V>(t: Table<V>, m: map<Key, V>, k: Key)
    requires Valid(t) && Agrees(t, m) && k in KeysOf(Visit(t))
    ensures k in m
    ensures exists id | id in t.nodes :: t.nodes[id].key == k
  {
    var i :| 0 <= i < |Visit(t)| && Visit(t)[i].0 == k;
    assert t.usage[i] in t.nodes;
  }

  /** A key of a walk is held by a bucket of the table, which carries the walk's value. */
  lemma VisitPairIn<V>(t: Table<V>, k: Key)
    requires Valid(t) && k in KeysOf(Visit(t))
    ensures exists i | 0 <= i < |t.usage| :: t.usage[i] in t.nodes && t.nodes[t.usage[i]].key == k
  {
    var i :| 0 <= i < |Visit(t)| && Visit(t)[i].0 == k;
    assert t.usage[i] in t.nodes;
  }

  /** A listed bucket's pair is on the walk. */
  lemma ListedOnWalk<V>(t: Table<V>, id: Id)
    requires Valid(t) && id in t.usage
    ensures id in t.nodes && t.nodes[id].key in KeysOf(Visit(t))
  {
    var i :| 0 <= i < |t.usage| && t.usage[i] == id;
    assert Visit(t)[i] == (t.nodes[id].key, t.nodes[id].val);
    assert Visit(t)[i].0 == t.nodes[id].key;
  }

  /** In a table whose buckets are all listed, a key the table yields is a key of its walk. */
  lemma FoundOnWalk<V>(t: Table<V>, k: Key)
    requires Valid(t) && Listed(t) && ValueOf(t, k).Some?
    ensures k in KeysOf(Visit(t))
  {
    ListedOnWalk(t, Find(t, k).value);
  }

  /** A table that agrees with `m` yields nothing for a key outside `m`. */
  lemma AgreesMissing<V>(t: Table<V>, m: map<Key, V>, k: Key)
    requires Valid(t) && Agrees(t, m) && k !in m
    ensures Find(t, k).None? && ValueOf(t, k).None?
  {
  }

  /** The first key of a walk whose keys are pairwise different does not occur again. */
  lemma FrontKeyOnce<V>(t: Table<V>)
    requires Valid(t) && |t.usage| > 0
    ensures Visit(t)[0].0 !in KeysOf(Visit(t)[1..])
  {
    var ps := Visit(t);
    forall j | 0 <= j < |ps[1..]|
      ensures ps[1..][j].0 != ps[0].0
    {
      assert ps[1..][j] == ps[j + 1];
    }
  }

  /** The freeing step of a migration turn keeps only buckets the retiring table already had. */
  lemma ReleaseShrinks<V>(t: Table<V>, id: Id)
    requires Valid(t) && id in t.nodes && id !in t.usage
    ensures forall x | x in Release(t, id).nodes :: x in t.nodes && Release(t, id).nodes[x] == t.nodes[x]
  {
  }

  /** Inserting a pair of `m` keeps the table in agreement with `m`. */
  lemma InsertAgrees<V>(t: Table<V>, k: Key, v: V, m: map<Key, V>)
    requires Valid(t) && Agrees(t, m) && k in m && m[k] == v
    ensures Agrees(Insert(t, k, v).table, m)
  {
    var ins := Insert(t, k, v);
    var id := if ins.created.Some? then ins.created.value else Find(t, k).value;
    AgreesOverwrite(t, ins.table, id, k, v, m);
  }

  /** Storing a pair of `m` in one bucket keeps agreement with `m`. */
  lemma AgreesOverwrite<V>(t: Table<V>, t': Table<V>, id: Id, k: Key, v: V, m: map<Key, V>)
    requires Agrees(t, m) && k in m && m[k] == v && t'.nodes == t.nodes[id := Entry(k, v)]
    ensures Agrees(t', m)
  {
  }

  /** Every bucket after an insert is listed, or is the new bucket about to be recorded. */
  lemma InsertListed<V>(t: Table<V>, k: Key, v: V)
    requires Valid(t) && Listed(t)
    ensures var ins := Insert(t, k, v);
            && (ins.created.None? ==> Listed(ins.table))
            && (ins.created.Some? ==> forall id | id in ins.table.nodes :: id == ins.created.value || id in t.usage)
  {
  }

  /** One migration turn keeps the active table in agreement with `m` and fully listed. */
  lemma MoveFrontActive<V>(ht: Table<V>, retiring: Table<V>, m: map<Key, V>)
    requires Valid(ht) && Valid(retiring) && |retiring.usage| > 0
    requires Agrees(ht, m) && Agrees(retiring, m) && Listed(ht)
    ensures Agrees(MoveFront(ht, retiring).active, m) && Listed(MoveFront(ht, retiring).active)
  {
    var e := retiring.nodes[retiring.usage[0]];
    InsertAgrees(ht, e.key, e.val, m);
    InsertListed(ht, e.key, e.val);
  }

  /** One migration turn keeps the retiring table in agreement with `m`. */
  lemma MoveFrontRetiring<V>(ht: Table<V>, retiring: Table<V>, m: map<Key, V>)
    requires Valid(ht) && Valid(retiring) && |retiring.usage| > 0 && Agrees(retiring, m)
    ensures Agrees(MoveFront(ht, retiring).retiring, m)
  {
    DropFirstValid(retiring);
    ReleaseShrinks(retiring.(usage := retiring.usage[1..]), retiring.usage[0]);
  }

  /** One key found before a migration turn, in the active table or on the retiring list, is found after it. */
  lemma MoveFrontCoversKey<V>(ht: Table<V>, retiring: Table<V>, k: Key)
    requires Valid(ht) && Valid(retiring) && |retiring.usage| > 0
    requires ValueOf(ht, k).Some? || k in KeysOf(Visit(retiring))
    ensures var r := MoveFront(ht, retiring);
            ValueOf(r.active, k).Some? || k in KeysOf(Visit(r.retiring))
  {
    var ps := Visit(retiring);
    assert Visit(MoveFront(ht, retiring).retiring) == ps[1..] by {
      MoveFrontVisit(ht, retiring);
    }
    KeysOfFront(ps);
    MoveFrontView(ht, retiring, k);
  }

  /** After one turn every key of `m` is still found in the active table or waits on the retiring list. */
  lemma MoveFrontCovers<V>(ht: Table<V>, retiring: Table<V>, m: map<Key, V>)
    requires Valid(ht) && Valid(retiring) && |retiring.usage| > 0
    requires Holds(ht, retiring, m)
    ensures var r := MoveFront(ht, retiring);
            forall k | k in m :: ValueOf(r.active, k).Some? || k in KeysOf(Visit(r.retiring))
  {
    forall k | k in m
      ensures ValueOf(MoveFront(ht, retiring).active, k).Some? || k in KeysOf(Visit(MoveFront(ht, retiring).retiring))
    {
      MoveFrontCoversKey(ht, retiring, k);
    }
  }

  /** After one turn no key that still waits on the retiring list is found in the active table. */
  lemma MoveFrontApart<V>(ht: Table<V>, retiring: Table<V>, m: map<Key, V>)
    requires Valid(ht) && Valid(retiring) && |retiring.usage| > 0
    requires Holds(ht, retiring, m)
    ensures var r := MoveFront(ht, retiring);
            forall k | k in KeysOf(Visit(r.retiring)) :: ValueOf(r.active, k).None?
  {
    var r := MoveFront(ht, retiring);
    var ps := Visit(retiring);
    assert Visit(r.retiring) == ps[1..] by {
      MoveFrontVisit(ht, retiring);
    }
    KeysOfFront(ps);
    FrontKeyOnce(retiring);
    forall k | k in KeysOf(Visit(r.retiring))
      ensures ValueOf(r.active, k).None?
    {
      MoveFrontView(ht, retiring, k);
    }
  }

  /** One migration turn keeps `Holds` and moves one bucket from one usage list to the other. */
  lemma MoveFrontHolds<V>(ht: Table<V>, retiring: Table<V>, m: map<Key, V>)
    requires Valid(ht) && Valid(retiring) && |retiring.usage| > 0
    requires Holds(ht, retiring, m)
    ensures var r := MoveFront(ht, retiring);
            && Holds(r.active, r.retiring, m)
            && |r.active.usage| + |r.retiring.usage| == |ht.usage| + |retiring.usage|
  {
    MoveFrontActive(ht, retiring, m);
    MoveFrontRetiring(ht, retiring, m);
    MoveFrontCovers(ht, retiring, m);
    MoveFrontApart(ht, retiring, m);
    KeysOfFront(Visit(retiring));
    MoveFrontListing(ht, retiring);
  }

  /** The batch of `MoveBatch`, carrying `Holds` and the total length of the two usage lists along. */
  ghost function HeldBatch<V>(ht: Table<V>, retiring: Table<V>, n: nat, m: map<Key, V>): (r: Tables<V>)
    requires Valid(ht) && Valid(retiring) && Holds(ht, retiring, m)
    ensures Valid(r.active) && Valid(r.retiring) && Holds(r.active, r.retiring, m)
    ensures |r.active.usage| + |r.retiring.usage| == |ht.usage| + |retiring.usage|
    ensures r == MoveBatch(ht, retiring, n)
    decreases n
  {
    if n == 0 || |retiring.usage| == 0 then Tables(ht, retiring)
    else
      var f := MoveFront(ht, retiring);
      MoveFrontHolds(ht, retiring, m);
      HeldBatch(f.active, f.retiring, n - 1, m)
  }

  /** A whole batch keeps `Holds` and the total length of the two usage lists. */
  lemma MoveBatchHolds<V>(ht: Table<V>, retiring: Table<V>, n: nat, m: map<Key, V>)
    requires Valid(ht) && Valid(retiring) && Holds(ht, retiring, m)
    ensures var r := MoveBatch(ht, retiring, n);
            && Holds(r.active, r.retiring, m)
            && |r.active.usage| + |r.retiring.usage| == |ht.usage| + |retiring.usage|
  {
    var r := HeldBatch(ht, retiring, n, m);
  }

  /** `Holds` with an empty retiring table: the active table alone holds `m`. */
  lemma HoldsDrained<V>(ht: Table<V>, retiring: Table<V>, m: map<Key, V>)
    requires Valid(ht) && Valid(retiring) && Holds(ht, retiring, m) && retiring.usage == []
    ensures Holds(ht, NewTable(1), m)
  {
    assert Visit(retiring) == [] && Visit(NewTable<V>(1)) == [];
  }

  /** `dict_rehash` keeps `Holds` and the total length of the two usage lists. */
  lemma RehashHolds<V>(d: Dict<V>, m: map<Key, V>)
    requires DictValid(d) && Holds(d.ht, Retiring(d), m)
    ensures var r := Rehash(d);
            && Holds(r.ht, Retiring(r), m)
            && |r.ht.usage| + |Retiring(r).usage| == |d.ht.usage| + |Retiring(d).usage|
  {
    if d.htOld.Some? {
      var b := MoveBatch(d.ht, d.htOld.value, REHASH_BATCH);
      assert Holds(b.active, b.retiring, m) && |b.active.usage| + |b.retiring.usage| == |d.ht.usage| + |Retiring(d).usage| by {
        MoveBatchHolds(d.ht, d.htOld.value, REHASH_BATCH, m);
      }
      if |b.retiring.usage| == 0 {
        HoldsDrained(b.active, b.retiring, m);
      }
    }
  }

  /** Dividing by four, bounded from both sides. */
  lemma Quarter(x: nat)
    ensures 4 * (x / 4) <= x < 4 * (x / 4) + 4
  {
  }

  /**
   * The backlog bound of `Inv` rules out a retiring table when the load test
   * fires: growth needs `count` past three quarters of the capacity, and the
   * bound leaves no room for a waiting bucket then.
   */
  lemma NoBacklogAtGrowth(c: nat, n: nat, backlog: nat)
    requires c > 0 && 4 * n > 3 * c
    requires backlog + REHASH_BATCH * n <= REHASH_BATCH * (3 * c / 4) + REHASH_BATCH
    ensures backlog == 0 && n == 3 * c / 4 + 1
  {
    Quarter(3 * c);
  }

  /**
   * The backlog bound after one `dict_add` of a new key, from the bound before:
   * `grow` says whether the load test fired, `waiting` is the retiring usage
   * list the batch starts from and `left` what the batch leaves of it.
   */
  lemma BoundStep(c: nat, n: nat, backlog: nat, grow: bool, waiting: nat, left: nat)
    requires c > 0
    requires backlog + REHASH_BATCH * n <= REHASH_BATCH * (3 * c / 4) + REHASH_BATCH
    requires grow <==> 4 * n > 3 * c
    requires grow ==> backlog == 0 && waiting <= n
    requires !grow ==> waiting == backlog
    requires left == waiting - Min(REHASH_BATCH, waiting)
    ensures var c' := if grow then 2 * c else c;
            left + REHASH_BATCH * (n + 1) <= REHASH_BATCH * (3 * c' / 4) + REHASH_BATCH
  {
    Quarter(3 * c);
    Quarter(6 * c);
    if grow {
      NoBacklogAtGrowth(c, n, backlog);
    }
  }

  /**
   * The growth step keeps `Holds`, and when the load test fires there is no
   * retiring table to lose: its buckets have all been moved already.
   */
  lemma GrowHolds<V>(d: Dict<V>, m: map<Key, V>)
    requires Inv(d, m)
    ensures NeedsGrowth(d) ==> d.htOld.None?
    ensures var g := Grow(d);
            && Holds(g.ht, Retiring(g), m)
            && g.count == |g.ht.usage| + |Retiring(g).usage|
  {
    if NeedsGrowth(d) {
      if d.htOld.Some? {
        NoBacklogAtGrowth(Capacity(d.ht), d.count, |Retiring(d).usage|);
      }
      var g := Grow(d);
      assert Visit(Retiring(d)) == [];
      forall k | k in m
        ensures k in KeysOf(Visit(d.ht))
      {
        FoundOnWalk(d.ht, k);
      }
    }
  }

  /** Inserting a key outside `m` extends `Holds` to `m[k := v]` and lists one more bucket. */
  lemma PutHolds<V>(d: Dict<V>, k: Key, v: V, m: map<Key, V>)
    requires DictValid(d) && Holds(d.ht, Retiring(d), m) && k !in m
    ensures var p := Put(d, k, v);
            && Holds(p.ht, Retiring(p), m[k := v])
            && p.count == d.count + 1
            && |p.ht.usage| == |d.ht.usage| + 1 && Retiring(p) == Retiring(d)
  {
    AgreesMissing(d.ht, m, k);
    PutAgrees(d, k, v, m);
    PutCovers(d, k, v, m);
  }

  /** The insert step of a key outside `m` leaves both tables agreeing with `m[k := v]` and the active one listed. */
  lemma PutAgrees<V>(d: Dict<V>, k: Key, v: V, m: map<Key, V>)
    requires DictValid(d) && Holds(d.ht, Retiring(d), m) && k !in m && Find(d.ht, k).None?
    ensures var p := Put(d, k, v);
            && Agrees(p.ht, m[k := v]) && Agrees(Retiring(d), m[k := v]) && Listed(p.ht)
  {
    var p := Put(d, k, v);
    var ins := Insert(d.ht, k, v);
    var c := ins.created.value;
    assert p.ht.nodes == d.ht.nodes[c := Entry(k, v)] && p.ht.usage == [c] + d.ht.usage;
    AgreesGrow(d.ht, m, k, v);
    AgreesGrow(Retiring(d), m, k, v);
    AgreesOverwrite(d.ht, p.ht, c, k, v, m[k := v]);
  }

  /** Agreement with `m` survives adding a key outside `m`. */
  lemma AgreesGrow<V>(t: Table<V>, m: map<Key, V>, k: Key, v: V)
    requires Agrees(t, m) && k !in m
    ensures Agrees(t, m[k := v])
  {
  }

  /** The insert step of a key outside `m` keeps the split of `m[k := v]` between the two tables. */
  lemma PutCovers<V>(d: Dict<V>, k: Key, v: V, m: map<Key, V>)
    requires DictValid(d) && Holds(d.ht, Retiring(d), m) && k !in m
    ensures var p := Put(d, k, v);
            && (forall k' | k' in m[k := v] :: ValueOf(p.ht, k').Some? || k' in KeysOf(Visit(Retiring(d))))
            && (forall k' | k' in KeysOf(Visit(Retiring(d))) :: ValueOf(p.ht, k').None?)
  {
    var p := Put(d, k, v);
    var t := Retiring(d);
    forall k' | k' in m[k := v]
      ensures ValueOf(p.ht, k').Some? || k' in KeysOf(Visit(t))
    {
      PutView(d, k, v, k');
    }
    forall k' | k' in KeysOf(Visit(t))
      ensures ValueOf(p.ht, k').None?
    {
      VisitKeysIn(t, m, k');
      PutView(d, k, v, k');
    }
  }

  /** `dict_add` of a key outside `m` keeps `Inv` for `m[k := v]` and counts one more key. */
  lemma AddKeeps<V>(d: Dict<V>, k: Key, v: V, m: map<Key, V>)
    requires Inv(d, m) && k !in m
    ensures Inv(Add(d, k, v), m[k := v])
    ensures Add(d, k, v).count == d.count + 1
  {
    var g := Grow(d);
    GrowHolds(d, m);
    var p := Put(g, k, v);
    PutHolds(g, k, v, m);
    var r := Rehash(p);
    RehashHolds(p, m[k := v]);
    var waiting := |Retiring(p).usage|;
    if p.htOld.Some? && r.htOld.None? {
      assert waiting <= REHASH_BATCH;
    }
    BoundStep(Capacity(d.ht), d.count, |Retiring(d).usage|, NeedsGrowth(d), waiting, |Retiring(r).usage|);
  }

  /** Keys pairwise different, as in the benchmark's `k-<i>` keys. */
  predicate DistinctKeys<V>(pairs: seq<(Key, V)>)
  {
    forall i, j | 0 <= i < j < |pairs| :: pairs[i].0 != pairs[j].0
  }

  /** The map the pairs describe, a later pair winning. */
  function PairsMap<V>(pairs: seq<(Key, V)>): (m: map<Key, V>)
    ensures forall k :: k in m <==> exists i | 0 <= i < |pairs| :: pairs[i].0 == k
  {
    if |pairs| == 0 then map[]
    else
      var m := PairsMap(pairs[..|pairs| - 1]);
      assert forall i | 0 <= i < |pairs| - 1 :: pairs[..|pairs| - 1][i] == pairs[i];
      m[pairs[|pairs| - 1].0 := pairs[|pairs| - 1].1]
  }

  /** With pairwise different keys every pair is in the map as it is. */
  lemma {:induction false} PairsMapHas<V>(pairs: seq<(Key, V)>, i: nat)
    requires DistinctKeys(pairs) && i < |pairs|
    ensures pairs[i].0 in PairsMap(pairs) && PairsMap(pairs)[pairs[i].0] == pairs[i].1
  {
    var n := |pairs| - 1;
    if i < n {
      var front := pairs[..n];
      assert front[i] == pairs[i];
      PairsMapHas(front, i);
    }
  }

  /** The benchmark's add loop: `dict_new(sz)`, then `dict_add` of every pair in order. */
  function AddAll<V>(sz: nat, pairs: seq<(Key, V)>): (d: Dict<V>)
    requires sz > 0
    ensures DictValid(d)
    decreases |pairs|
  {
    if |pairs| == 0 then New(sz)
    else Add(AddAll(sz, pairs[..|pairs| - 1]), pairs[|pairs| - 1].0, pairs[|pairs| - 1].1)
  }

  /** A new dictionary holds the empty map. */
  lemma NewInv<V>(sz: nat)
    requires sz > 0
    ensures Inv(New<V>(sz), map[])
  {
    assert Visit(NewTable<V>(1)) == [] && Visit(NewTable<V>(sz)) == [];
  }

  /** Adding pairs with different keys keeps `Inv` and counts every pair. */
  lemma {:induction false} AddAllInv<V>(sz: nat, pairs: seq<(Key, V)>)
    requires sz > 0 && DistinctKeys(pairs)
    ensures Inv(AddAll(sz, pairs), PairsMap(pairs))
    ensures AddAll(sz, pairs).count == |pairs|
    decreases |pairs|
  {
    if |pairs| == 0 {
      NewInv<V>(sz);
    } else {
      var n := |pairs| - 1;
      var front := pairs[..n];
      assert DistinctKeys(front) by {
        forall i, j | 0 <= i < j < n
          ensures front[i].0 != front[j].0
        {
          assert front[i] == pairs[i] && front[j] == pairs[j];
        }
      }
      AddAllInv(sz, front);
      assert pairs[n].0 !in PairsMap(front) by {
        forall i | 0 <= i < n
          ensures front[i].0 != pairs[n].0
        {
          assert front[i] == pairs[i];
        }
      }
      AddKeeps(AddAll(sz, front), pairs[n].0, pairs[n].1, PairsMap(front));
    }
  }

  /** Under `Inv`, `dict_get` yields exactly what `m` gives. */
  lemma GetUnderInv<V>(d: Dict<V>, m: map<Key, V>, k: Key)
    requires Inv(d, m)
    ensures Get(d, k) == if k in m then Some(m[k]) else None
  {
    var t := Retiring(d);
    if k in m {
      if ValueOf(d.ht, k).None? {
        FindNone(d.ht, k);
        VisitPairIn(t, k);
      }
    } else if d.htOld.Some? {
      AgreesMissing(t, m, k);
      FindNone(t, k);
    }
  }

  /**
   * Under `Inv`, adding a key the active table already holds, with no growth
   * due, replaces its value: the count stays and `dict_get` returns the new
   * value, because no bucket for the key waits in the retiring walk.
   */
  lemma OverwriteUnderInv<V>(d: Dict<V>, m: map<Key, V>, k: Key, v: V)
    requires Inv(d, m) && !NeedsGrowth(d) && Find(d.ht, k).Some?
    ensures Add(d, k, v).count == d.count
    ensures Get(Add(d, k, v), k) == Some(v)
  {
    var t := Retiring(d);
    assert k !in KeysOf(Visit(t)) by {
      assert ValueOf(d.ht, k).Some?;
    }
    if d.htOld.Some? {
      assert forall i | 0 <= i < |Visit(d.htOld.value)| :: Visit(d.htOld.value)[i].0 != k;
    }
    AddOverwrites(d, k, v);
  }

  /**
   * The read-back loop of hash.c: after adding pairs with pairwise different keys
   * to a new dictionary, every key yields its own value, every other key yields
   * NULL, and the count is the number of pairs.
   */
  lemma RoundTrip<V>(sz: nat, pairs: seq<(Key, V)>)
    requires sz > 0 && DistinctKeys(pairs)
    ensures AddAll(sz, pairs).count == |pairs|
    ensures forall i | 0 <= i < |pairs| :: Get(AddAll(sz, pairs), pairs[i].0) == Some(pairs[i].1)
    ensures forall k | (forall i | 0 <= i < |pairs| :: pairs[i].0 != k) :: Get(AddAll(sz, pairs), k).None?
  {
    var d := AddAll(sz, pairs);
    var m := PairsMap(pairs);
    AddAllInv(sz, pairs);
    forall i | 0 <= i < |pairs|
      ensures Get(d, pairs[i].0) == Some(pairs[i].1)
    {
      PairsMapHas(pairs, i);
      GetUnderInv(d, m, pairs[i].0);
    }
    forall k | (forall i | 0 <= i < |pairs| :: pairs[i].0 != k)
      ensures Get(d, k).None?
    {
      GetUnderInv(d, m, k);
    }
  }

  /**
   * Under `Inv`, `dict_foreach` visits the pairs of `m` and nothing else, each
   * key once, and visits as many pairs as the dictionary counts.
   */
  lemma ForEachUnderInv<V>(d: Dict<V>, m: map<Key, V>)
    requires Inv(d, m)
    ensures |ForEach(d)| == d.count
    ensures DistinctKeys(ForEach(d))
    ensures forall i | 0 <= i < |ForEach(d)| :: ForEach(d)[i].0 in m && m[ForEach(d)[i].0] == ForEach(d)[i].1
    ensures forall k | k in m :: k in KeysOf(ForEach(d))
  {
    var t := Retiring(d);
    var a, b := Visit(d.ht), Visit(t);
    assert ForEach(d) == a + b by {
      if d.htOld.None? {
        assert b == [];
      }
    }
    assert DistinctKeys(a + b) by {
      WalksApart(d.ht, t, m);
      ConcatDistinct(a, b);
    }
    assert forall i | 0 <= i < |a + b| :: (a + b)[i].0 in m && m[(a + b)[i].0] == (a + b)[i].1 by {
      ForEachPairs(d.ht, m);
      ForEachPairs(t, m);
      ConcatPairs(a, b, m);
    }
    assert forall k | k in m :: k in KeysOf(a + b) by {
      KeysOfConcat(a, b);
      forall k | k in m
        ensures k in KeysOf(a) || k in KeysOf(b)
      {
        if ValueOf(d.ht, k).Some? {
          FoundOnWalk(d.ht, k);
        }
      }
    }
  }

  /** Two walks with distinct keys and no key in common concatenate to one with distinct keys. */
  lemma ConcatDistinct<V>(a: seq<(Key, V)>, b: seq<(Key, V)>)
    requires DistinctKeys(a) && DistinctKeys(b)
    requires forall i, j | 0 <= i < |a| && 0 <= j < |b| :: a[i].0 != b[j].0
    ensures DistinctKeys(a + b)
  {
    var c := a + b;
    forall i, j | 0 <= i < j < |c|
      ensures c[i].0 != c[j].0
    {
      if j < |a| {
        assert c[i] == a[i] && c[j] == a[j];
      } else if i < |a| {
        assert c[i] == a[i] && c[j] == b[j - |a|];
      } else {
        assert c[i] == b[i - |a|] && c[j] == b[j - |a|];
      }
    }
  }

  /** Two walks of pairs of `m` concatenate to a walk of pairs of `m`. */
  lemma ConcatPairs<V>(a: seq<(Key, V)>, b: seq<(Key, V)>, m: map<Key, V>)
    requires forall i | 0 <= i < |a| :: a[i].0 in m && m[a[i].0] == a[i].1
    requires forall j | 0 <= j < |b| :: b[j].0 in m && m[b[j].0] == b[j].1
    ensures forall i | 0 <= i < |a + b| :: (a + b)[i].0 in m && m[(a + b)[i].0] == (a + b)[i].1
  {
    forall i | 0 <= i < |a + b|
      ensures (a + b)[i].0 in m && m[(a + b)[i].0] == (a + b)[i].1
    {
      if i >= |a| {
        assert (a + b)[i] == b[i - |a|];
      }
    }
  }

  /** The keys of a concatenation are the keys of its two parts. */
  lemma KeysOfConcat<V>(a: seq<(Key, V)>, b: seq<(Key, V)>)
    ensures KeysOf(a + b) == KeysOf(a) + KeysOf(b)
  {
    var c := a + b;
    forall k | k in KeysOf(a) + KeysOf(b)
      ensures k in KeysOf(c)
    {
      if k in KeysOf(a) {
        var i :| 0 <= i < |a| && a[i].0 == k;
        assert c[i] == a[i];
      } else {
        var j :| 0 <= j < |b| && b[j].0 == k;
        assert c[|a| + j] == b[j];
      }
    }
    forall k | k in KeysOf(c)
      ensures k in KeysOf(a) + KeysOf(b)
    {
      var i :| 0 <= i < |c| && c[i].0 == k;
      if i >= |a| {
        assert c[i] == b[i - |a|];
      }
    }
  }

  /** Every pair on the walk of a table that agrees with `m` is a pair of `m`. */
  lemma ForEachPairs<V>(t: Table<V>, m: map<Key, V>)
    requires Valid(t) && Agrees(t, m)
    ensures forall i | 0 <= i < |Visit(t)| :: Visit(t)[i].0 in m && m[Visit(t)[i].0] == Visit(t)[i].1
  {
  }

  /** No key is on both walks while `Holds`: the active table's walk and the retiring one's share no key. */
  lemma WalksApart<V>(ht: Table<V>, retiring: Table<V>, m: map<Key, V>)
    requires Valid(ht) && Valid(retiring) && Holds(ht, retiring, m)
    ensures forall i, j | 0 <= i < |Visit(ht)| && 0 <= j < |Visit(retiring)| :: Visit(ht)[i].0 != Visit(retiring)[j].0
  {
    var a, b := Visit(ht), Visit(retiring);
    forall i, j | 0 <= i < |a| && 0 <= j < |b|
      ensures a[i].0 != b[j].0
    {
      FindHolder(ht, a[i].0, ht.usage[i]);
      assert b[j].0 in KeysOf(b);
    }
  }

  /**
   * After the add loop over pairs with different keys, `dict_foreach` visits
   * exactly those pairs, each once, in some order.
   */
  lemma AddAllForEach<V>(sz: nat, pairs: seq<(Key, V)>)
    requires sz > 0 && DistinctKeys(pairs)
    ensures |ForEach(AddAll(sz, pairs))| == |pairs|
    ensures DistinctKeys(ForEach(AddAll(sz, pairs)))
    ensures forall x | x in ForEach(AddAll(sz, pairs)) :: x in pairs
    ensures forall i | 0 <= i < |pairs| :: pairs[i] in ForEach(AddAll(sz, pairs))
  {
    var d := AddAll(sz, pairs);
    var m := PairsMap(pairs);
    var ps := ForEach(d);
    assert && |ps| == |pairs| && DistinctKeys(ps)
           && (forall i | 0 <= i < |ps| :: ps[i].0 in m && m[ps[i].0] == ps[i].1)
           && (forall k | k in m :: k in KeysOf(ps)) by {
      AddAllInv(sz, pairs);
      ForEachUnderInv(d, m);
    }
    WalkOfPairs(ps, pairs);
  }

  /** A walk holding the pairs of `PairsMap(pairs)` and all its keys holds exactly the pairs. */
  lemma WalkOfPairs<V>(ps: seq<(Key, V)>, pairs: seq<(Key, V)>)
    requires DistinctKeys(pairs)
    requires forall i | 0 <= i < |ps| :: ps[i].0 in PairsMap(pairs) && PairsMap(pairs)[ps[i].0] == ps[i].1
    requires forall k | k in PairsMap(pairs) :: k in KeysOf(ps)
    ensures forall x | x in ps :: x in pairs
    ensures forall i | 0 <= i < |pairs| :: pairs[i] in ps
  {
    forall x | x in ps
      ensures x in pairs
    {
      var j :| 0 <= j < |ps| && ps[j] == x;
      var i :| 0 <= i < |pairs| && pairs[i].0 == x.0;
      PairsMapHas(pairs, i);
    }
    forall i | 0 <= i < |pairs|
      ensures pairs[i] in ps
    {
      PairsMapHas(pairs, i);
      var j :| 0 <= j < |ps| && ps[j].0 == pairs[i].0;
    }
  }
}
