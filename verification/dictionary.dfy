/**
 * The dictionary (dict.h `struct dict`, dict.c `dict_*`): an active table, and
 * during a migration window a retiring table `ht_old` whose buckets are moved
 * over a bounded batch at a time on every add.
 */
module Dictionary {

  import opened Options
  import opened Djb
  import opened ChainedTable

  /** `DICT_REHASH_BATCH_SIZE`: the most buckets one add moves out of `ht_old`. */
  const REHASH_BATCH: nat := 20

  /** `struct dict`: the number of buckets added, the active table and the optional retiring one. */
  datatype Dict<V> = Dict(count: int, ht: Table<V>, htOld: Option<Table<V>>)

  /** Both tables keep the table invariant. */
  ghost predicate DictValid<V>(d: Dict<V>)
  {
    Valid(d.ht) && (d.htOld.Some? ==> Valid(d.htOld.value))
  }

  /** `dict_new`: one table of `sz` slots, no retiring table, a count of 0. */
  function New<V>(sz: nat): (d: Dict<V>)
    requires sz > 0
    ensures DictValid(d)
    ensures d.count == 0 && d.htOld.None? && Capacity(d.ht) == sz
    ensures forall k :: Get(d, k).None?
    ensures ForEach(d) == []
  {
    Dict(0, NewTable(sz), None)
  }

  /**
   * The load test `(float)count / (float)sz > DICT_MAX_LOAD` with the maximum
   * load 0.75, read over exact rationals: count / sz > 3 / 4.
   */
  predicate NeedsGrowth<V>(d: Dict<V>)
  {
    4 * d.count > 3 * Capacity(d.ht)
  }

  /**
   * The growth step at the start of `dict_add`: when the load is exceeded the
   * active table is demoted to `ht_old`, overwriting whatever was there, and an
   * empty table of twice the capacity becomes active.
   */
  function Grow<V>(d: Dict<V>): (r: Dict<V>)
    requires DictValid(d)
    ensures DictValid(r) && r.count == d.count
    ensures NeedsGrowth(d) ==>
              && Capacity(r.ht) == 2 * Capacity(d.ht)
              && r.ht.usage == [] && (forall k :: Find(r.ht, k).None?)
              && r.htOld == Some(d.ht)
    ensures !NeedsGrowth(d) ==> r == d
  {
    if NeedsGrowth(d) then Dict(d.count, NewTable(2 * Capacity(d.ht)), Some(d.ht)) else d
  }

  /**
   * The insert step of `dict_add`: insert into the active table; a new bucket is
   * counted and becomes the first of the active usage list, a replacement is
   * neither counted nor listed.
   */
  function Put<V>(d: Dict<V>, k: Key, v: V): (r: Dict<V>)
    requires DictValid(d)
    ensures DictValid(r) && r.htOld == d.htOld && Capacity(r.ht) == Capacity(d.ht)
    ensures ValueOf(r.ht, k) == Some(v)
    ensures Find(d.ht, k).Some? ==> r.count == d.count && r.ht.usage == d.ht.usage
    ensures Find(d.ht, k).None? ==>
              && r.count == d.count + 1
              && |r.ht.usage| == |d.ht.usage| + 1 && r.ht.usage[1..] == d.ht.usage
              && r.ht.nodes[r.ht.usage[0]] == Entry(k, v)
  {
    var ins := Insert(d.ht, k, v);
    InsertUpdatesView(d.ht, k, v, k);
    match ins.created
    case Some(b) => Dict(d.count + 1, RecordUsed(ins.table, b), d.htOld)
    case None => d.(ht := ins.table)
  }

  /** After the insert step the active table yields `v` for `k` and what it yielded before for every other key. */
  lemma PutView<V>(d: Dict<V>, k: Key, v: V, k': Key)
    requires DictValid(d)
    ensures ValueOf(Put(d, k, v).ht, k') == if k' == k then Some(v) else ValueOf(d.ht, k')
  {
    InsertUpdatesView(d.ht, k, v, k');
  }

  /** The active and the retiring table while a batch is being moved. */
  datatype Tables<V> = Tables(active: Table<V>, retiring: Table<V>)

  /**
   * One turn of the loop of `dict_rehash`: the first bucket of the retiring usage
   * list is inserted into the active table (and listed there if that made a new
   * bucket), the retiring list advances past it, and it is freed.
   */
  function MoveFront<V>(ht: Table<V>, retiring: Table<V>): (r: Tables<V>)
    requires Valid(ht) && Valid(retiring) && |retiring.usage| > 0
    ensures Valid(r.active) && Valid(r.retiring)
    ensures Capacity(r.active) == Capacity(ht) && Capacity(r.retiring) == Capacity(retiring)
    ensures r.retiring.usage == retiring.usage[1..]
    ensures |r.active.usage| <= |ht.usage| + 1
  {
    var b := retiring.usage[0];
    var e := retiring.nodes[b];
    var ins := Insert(ht, e.key, e.val);
    var active := if ins.created.Some? then RecordUsed(ins.table, ins.created.value) else ins.table;
    DropFirstValid(retiring);
    Tables(active, Release(retiring.(usage := retiring.usage[1..]), b))
  }

  /** Advancing `first` past the first bucket keeps the table invariant and unlists that bucket. */
  lemma DropFirstValid<V>(t: Table<V>)
    requires Valid(t) && |t.usage| > 0
    ensures Valid(t.(usage := t.usage[1..])) && t.usage[0] !in t.usage[1..]
  {
    RelistValid(t, t.usage[1..]);
  }

  /**
   * A turn lists a new bucket in the active table exactly when the moved key was
   * not already there; otherwise it only overwrote a value.
   */
  lemma MoveFrontListing<V>(ht: Table<V>, retiring: Table<V>)
    requires Valid(ht) && Valid(retiring) && |retiring.usage| > 0
    ensures var r := MoveFront(ht, retiring);
            && (Find(ht, Visit(retiring)[0].0).Some? ==> r.active.usage == ht.usage)
            && (Find(ht, Visit(retiring)[0].0).None? ==> |r.active.usage| == |ht.usage| + 1 && r.active.usage[1..] == ht.usage)
  {
  }

  /** After one turn the retiring walk is the old walk without its first pair. */
  lemma MoveFrontVisit<V>(ht: Table<V>, retiring: Table<V>)
    requires Valid(ht) && Valid(retiring) && |retiring.usage| > 0
    ensures Visit(MoveFront(ht, retiring).retiring) == Visit(retiring)[1..]
  {
    DropFirstValid(retiring);
    var t' := retiring.(usage := retiring.usage[1..]);
    ReleaseVisit(t', retiring.usage[0]);
    assert Visit(t') == Visit(retiring)[1..];
  }

  /**
   * After one turn the active table yields the moved pair's value for its key,
   * whether it inserted or replaced, and what it yielded before for every other key.
   */
  lemma MoveFrontView<V>(ht: Table<V>, retiring: Table<V>, k: Key)
    requires Valid(ht) && Valid(retiring) && |retiring.usage| > 0
    ensures ValueOf(MoveFront(ht, retiring).active, k) ==
              if k == Visit(retiring)[0].0 then Some(Visit(retiring)[0].1) else ValueOf(ht, k)
  {
    var e := retiring.nodes[retiring.usage[0]];
    InsertUpdatesView(ht, e.key, e.val, k);
  }

  function Min(a: nat, b: nat): nat
  {
    if a < b then a else b
  }

  /**
   * The loop of `dict_rehash`: up to `n` turns of `MoveFront`, stopping early
   * when the retiring usage list runs out.
   */
  function MoveBatch<V>(ht: Table<V>, retiring: Table<V>, n: nat): (r: Tables<V>)
    requires Valid(ht) && Valid(retiring)
    ensures Valid(r.active) && Valid(r.retiring)
    ensures Capacity(r.active) == Capacity(ht) && Capacity(r.retiring) == Capacity(retiring)
    ensures r.retiring.usage == retiring.usage[Min(n, |retiring.usage|)..]
    ensures |r.active.usage| <= |ht.usage| + Min(n, |retiring.usage|)
    decreases n
  {
    if n == 0 || |retiring.usage| == 0 then Tables(ht, retiring)
    else
      var m := MoveFront(ht, retiring);
      DropAfterFirst(retiring.usage, n);
      MoveBatch(m.active, m.retiring, n - 1)
  }

  lemma DropAfterFirst(u: seq<Id>, n: nat)
    requires n > 0 && |u| > 0
    ensures u[Min(n, |u|)..] == u[1..][Min(n - 1, |u| - 1)..]
    ensures Min(n, |u|) == Min(n - 1, |u| - 1) + 1
  {
  }

  /** The value of the first pair of `ps` whose key is `k`, if there is one. */
  function PairValue<V>(ps: seq<(Key, V)>, k: Key): Option<V>
  {
    if |ps| == 0 then None
    else if ps[0].0 == k then Some(ps[0].1)
    else PairValue(ps[1..], k)
  }

  /** No pair carries the key, so there is no value for it. */
  lemma PairValueAbsent<V>(ps: seq<(Key, V)>, k: Key)
    requires forall i | 0 <= i < |ps| :: ps[i].0 != k
    ensures PairValue(ps, k).None?
  {
  }

  /**
   * The first `c` pairs of a walk with distinct keys, split at the front: the
   * front key's value, or the value among the rest, where the front key no
   * longer occurs.
   */
  lemma PairValueFront<V>(ps: seq<(Key, V)>, c: nat, k: Key)
    requires 0 < c <= |ps|
    requires forall i, j | 0 <= i < j < |ps| :: ps[i].0 != ps[j].0
    ensures PairValue(ps[..c], k) == if ps[0].0 == k then Some(ps[0].1) else PairValue(ps[1..][..c - 1], k)
    ensures ps[0].0 == k ==> PairValue(ps[1..][..c - 1], k).None?
  {
    assert ps[..c][1..] == ps[1..][..c - 1];
    if ps[0].0 == k {
      PairValueAbsent(ps[1..][..c - 1], k);
    }
  }

  /**
   * What the active table yields after a batch: the value of the moved pair for
   * a key among the first `n` pairs of the retiring walk, whether that turn
   * inserted or replaced, and for every other key what it yielded before.
   */
  lemma MoveBatchView<V>(ht: Table<V>, retiring: Table<V>, n: nat, k: Key)
    requires Valid(ht) && Valid(retiring)
    ensures var moved := PairValue(Visit(retiring)[..Min(n, |retiring.usage|)], k);
            ValueOf(MoveBatch(ht, retiring, n).active, k) == if moved.Some? then moved else ValueOf(ht, k)
  {
    var r := ViewedBatch(ht, retiring, n, k);
  }

  /** The batch of `MoveBatch`, carrying what the active table yields for `k` along. */
  ghost function ViewedBatch<V>(ht: Table<V>, retiring: Table<V>, n: nat, k: Key): (r: Tables<V>)
    requires Valid(ht) && Valid(retiring)
    ensures r == MoveBatch(ht, retiring, n)
    ensures var moved := PairValue(Visit(retiring)[..Min(n, |retiring.usage|)], k);
            ValueOf(MoveBatch(ht, retiring, n).active, k) == if moved.Some? then moved else ValueOf(ht, k)
    decreases n
  {
    if n == 0 || |retiring.usage| == 0 then
      assert Visit(retiring)[..Min(n, |retiring.usage|)] == [];
      Tables(ht, retiring)
    else
      var m := MoveFront(ht, retiring);
      var r := ViewedBatch(m.active, m.retiring, n - 1, k);
      TurnThenBatch(ht, retiring, n, k);
      r
  }

  /**
   * If the rest of the batch yields the value of a pair it moved, or else what
   * the table yielded after the first turn, then the whole batch yields the
   * value of a pair it moved, or else what the table yielded before it.
   */
  lemma TurnThenBatch<V>(ht: Table<V>, retiring: Table<V>, n: nat, k: Key)
    requires Valid(ht) && Valid(retiring) && n > 0 && |retiring.usage| > 0
    requires var m := MoveFront(ht, retiring);
             var later := PairValue(Visit(m.retiring)[..Min(n - 1, |m.retiring.usage|)], k);
             ValueOf(MoveBatch(m.active, m.retiring, n - 1).active, k) == if later.Some? then later else ValueOf(m.active, k)
    ensures var moved := PairValue(Visit(retiring)[..Min(n, |retiring.usage|)], k);
            ValueOf(MoveBatch(ht, retiring, n).active, k) == if moved.Some? then moved else ValueOf(ht, k)
  {
    var m := MoveFront(ht, retiring);
    BatchTail(ht, retiring, n, k);
    MoveFrontView(ht, retiring, k);
    var ps := Visit(retiring);
    var c := Min(n, |retiring.usage|);
    assert && PairValue(ps[..c], k) == (if ps[0].0 == k then Some(ps[0].1) else PairValue(ps[1..][..c - 1], k))
           && (ps[0].0 == k ==> PairValue(ps[1..][..c - 1], k).None?) by {
      PairValueFront(ps, c, k);
    }
  }

  /** A batch of `n` turns is one turn followed by a batch of `n - 1` over the rest of the walk. */
  lemma BatchTail<V>(ht: Table<V>, retiring: Table<V>, n: nat, k: Key)
    requires Valid(ht) && Valid(retiring) && n > 0 && |retiring.usage| > 0
    ensures var m := MoveFront(ht, retiring);
            && MoveBatch(ht, retiring, n) == MoveBatch(m.active, m.retiring, n - 1)
            && PairValue(Visit(m.retiring)[..Min(n - 1, |m.retiring.usage|)], k) == PairValue(Visit(retiring)[1..][..Min(n, |retiring.usage|) - 1], k)
  {
    DropAfterFirst(retiring.usage, n);
    MoveFrontVisit(ht, retiring);
    var m := MoveFront(ht, retiring);
    assert Visit(m.retiring)[..Min(n - 1, |m.retiring.usage|)] == Visit(retiring)[1..][..Min(n, |retiring.usage|) - 1];
  }

  /**
   * `dict_rehash`: nothing without a retiring table; otherwise one batch of at
   * most `REHASH_BATCH` buckets moves from the front of the retiring usage list
   * into the active table, and the retiring table is dropped exactly when its
   * usage list is then empty.
   */
  function Rehash<V>(d: Dict<V>): (r: Dict<V>)
    requires DictValid(d)
    ensures DictValid(r) && r.count == d.count && Capacity(r.ht) == Capacity(d.ht)
    ensures d.htOld.None? ==> r == d
    ensures d.htOld.Some? ==>
              var u := d.htOld.value.usage;
              var moved := Min(REHASH_BATCH, |u|);
              && (r.htOld.None? <==> |u| <= REHASH_BATCH)
              && (r.htOld.Some? ==> r.htOld.value.usage == u[moved..] && Capacity(r.htOld.value) == Capacity(d.htOld.value))
              && |r.ht.usage| <= |d.ht.usage| + moved
  {
    match d.htOld
    case None => d
    case Some(retiring) =>
      var m := MoveBatch(d.ht, retiring, REHASH_BATCH);
      if |m.retiring.usage| == 0 then Dict(d.count, m.active, None)
      else Dict(d.count, m.active, Some(m.retiring))
  }

  /** `dict_add`: the growth step, the insert step, then one migration batch. */
  function Add<V>(d: Dict<V>, k: Key, v: V): (r: Dict<V>)
    requires DictValid(d)
    ensures DictValid(r)
    ensures Capacity(r.ht) == if NeedsGrowth(d) then 2 * Capacity(d.ht) else Capacity(d.ht)
    ensures r.count == if NeedsGrowth(d) || Find(d.ht, k).None? then d.count + 1 else d.count
    ensures r.htOld.Some? ==> NeedsGrowth(d) || d.htOld.Some?
    ensures var waiting := if NeedsGrowth(d) then d.ht.usage else if d.htOld.Some? then d.htOld.value.usage else [];
            && (r.htOld.None? <==> |waiting| <= REHASH_BATCH)
            && (r.htOld.Some? ==> r.htOld.value.usage == waiting[REHASH_BATCH..])
  {
    var p := Put(Grow(d), k, v);
    assert p.htOld == if NeedsGrowth(d) then Some(d.ht) else d.htOld;
    Rehash(p)
  }

  /**
   * What the active table yields after `dict_rehash`: the moved value for a key
   * among the pairs this batch takes from the front of the retiring walk, and
   * otherwise what it yielded before.
   */
  lemma RehashView<V>(d: Dict<V>, k: Key)
    requires DictValid(d)
    ensures var moved := if d.htOld.None? then None
                         else PairValue(Visit(d.htOld.value)[..Min(REHASH_BATCH, |d.htOld.value.usage|)], k);
            ValueOf(Rehash(d).ht, k) == if moved.Some? then moved else ValueOf(d.ht, k)
  {
    if d.htOld.Some? {
      MoveBatchView(d.ht, d.htOld.value, REHASH_BATCH, k);
    }
  }

  /** When the active table holds the key, `dict_get` returns its value there. */
  lemma GetPrefersActive<V>(d: Dict<V>, k: Key)
    requires DictValid(d) && ValueOf(d.ht, k).Some?
    ensures Get(d, k) == ValueOf(d.ht, k)
  {
  }

  /**
   * Adding a key the active table already holds, with no growth due and the key
   * not waiting in the retiring walk, replaces its value: the count stays and
   * `dict_get` returns `v`.
   */
  lemma AddOverwrites<V>(d: Dict<V>, k: Key, v: V)
    requires DictValid(d) && !NeedsGrowth(d) && Find(d.ht, k).Some?
    requires d.htOld.Some? ==> forall i | 0 <= i < |Visit(d.htOld.value)| :: Visit(d.htOld.value)[i].0 != k
    ensures Add(d, k, v).count == d.count
    ensures Get(Add(d, k, v), k) == Some(v)
  {
    var p := Put(d, k, v);
    RehashKeepsUnmoved(p, k);
    GetPrefersActive(Rehash(p), k);
  }

  /** A key that is not waiting in the retiring walk keeps its active value across `dict_rehash`. */
  lemma RehashKeepsUnmoved<V>(d: Dict<V>, k: Key)
    requires DictValid(d)
    requires d.htOld.Some? ==> forall i | 0 <= i < |Visit(d.htOld.value)| :: Visit(d.htOld.value)[i].0 != k
    ensures ValueOf(Rehash(d).ht, k) == ValueOf(d.ht, k)
  {
    RehashView(d, k);
    if d.htOld.Some? {
      PrefixAbsent(Visit(d.htOld.value), Min(REHASH_BATCH, |d.htOld.value.usage|), k);
    }
  }

  /** A key no pair carries has no value among the first `c` pairs either. */
  lemma PrefixAbsent<V>(ps: seq<(Key, V)>, c: nat, k: Key)
    requires c <= |ps| && forall i | 0 <= i < |ps| :: ps[i].0 != k
    ensures PairValue(ps[..c], k).None?
  {
    PairValueAbsent(ps[..c], k);
  }

  /**
   * The add whose load test fires: the fresh active table does not hold `k`, so
   * it is counted as new whatever the old table held. The same call's migration
   * moves the first 20 buckets of the old active usage list over it, so
   * `dict_get` returns the value of one of those buckets when it holds `k`, and
   * `v` otherwise.
   */
  lemma GrowthAddView<V>(d: Dict<V>, k: Key, v: V)
    requires DictValid(d) && NeedsGrowth(d)
    ensures Add(d, k, v).count == d.count + 1
    ensures var moved := PairValue(Visit(d.ht)[..Min(REHASH_BATCH, |d.ht.usage|)], k);
            Get(Add(d, k, v), k) == if moved.Some? then moved else Some(v)
  {
    var p := Put(Grow(d), k, v);
    RehashView(p, k);
    GetPrefersActive(Rehash(p), k);
  }

  /**
   * Re-adding the key at the front of the active usage list on the add whose
   * load test fires counts it again, and the same call's migration moves its
   * old bucket first, over the new one: `dict_get` returns the old value, not `v`.
   */
  lemma GrowthReAddReverts<V>(d: Dict<V>, k: Key, v: V)
    requires DictValid(d) && NeedsGrowth(d) && |d.ht.usage| > 0 && Visit(d.ht)[0].0 == k
    ensures Add(d, k, v).count == d.count + 1
    ensures Get(Add(d, k, v), k) == Some(Visit(d.ht)[0].1)
  {
    GrowthAddView(d, k, v);
    var ps := Visit(d.ht);
    assert ps[..Min(REHASH_BATCH, |ps|)][0] == ps[0];
  }

  /**
   * Adding a key that only the retiring table still holds counts it as a new
   * key, and when that old bucket is the last one waiting to migrate, the same
   * call's rehash step copies the old value over the new one: `dict_get`
   * then returns the old value, not `v`.
   */
  lemma ReAddRevertsValue<V>(d: Dict<V>, k: Key, v: V)
    requires DictValid(d) && !NeedsGrowth(d) && Find(d.ht, k).None?
    requires d.htOld.Some? && |d.htOld.value.usage| == 1 && Visit(d.htOld.value)[0].0 == k
    ensures Get(d, k) == Some(Visit(d.htOld.value)[0].1)
    ensures Add(d, k, v).count == d.count + 1
    ensures Add(d, k, v).htOld.None?
    ensures Get(Add(d, k, v), k) == Some(Visit(d.htOld.value)[0].1)
  {
    var t := d.htOld.value;
    assert t.usage[0] in t.nodes && t.nodes[t.usage[0]].key == k;
    FindHolder(t, k, t.usage[0]);
    var p := Put(d, k, v);
    var f := MoveFront(p.ht, t);
    assert MoveBatch(p.ht, t, REHASH_BATCH) == f by {
      assert f.retiring.usage == [];
    }
    MoveFrontView(p.ht, t, k);
  }

  /**
   * `dict_get`: the value of the active table's bucket for `k` if it has one,
   * else the value of the retiring table's bucket, else None.
   */
  function Get<V>(d: Dict<V>, k: Key): (r: Option<V>)
    requires DictValid(d)
    ensures forall id | id in d.ht.nodes && d.ht.nodes[id].key == k :: r == Some(d.ht.nodes[id].val)
    ensures (forall id | id in d.ht.nodes :: d.ht.nodes[id].key != k) && d.htOld.Some? ==>
              forall id | id in d.htOld.value.nodes && d.htOld.value.nodes[id].key == k :: r == Some(d.htOld.value.nodes[id].val)
    ensures r.None? <==>
              && (forall id | id in d.ht.nodes :: d.ht.nodes[id].key != k)
              && (d.htOld.Some? ==> forall id | id in d.htOld.value.nodes :: d.htOld.value.nodes[id].key != k)
  {
    var h := DjbHash(k);
    match Lookup(d.ht, h, k)
    case Some(b) =>
      FindsHolder(d.ht, k);
      Some(d.ht.nodes[b].val)
    case None =>
      FindNone(d.ht, k);
      if d.htOld.None? then None
      else
        match Lookup(d.htOld.value, h, k)
        case Some(b) =>
          FindsHolder(d.htOld.value, k);
          Some(d.htOld.value.nodes[b].val)
        case None =>
          FindNone(d.htOld.value, k);
          None
  }

  /** Whichever bucket holds `k`, it is the one `Find` returns. */
  lemma FindsHolder<V>(t: Table<V>, k: Key)
    requires Valid(t)
    ensures forall id | id in t.nodes && t.nodes[id].key == k :: Find(t, k) == Some(id)
  {
    forall id | id in t.nodes && t.nodes[id].key == k
      ensures Find(t, k) == Some(id)
    {
      FindHolder(t, k, id);
    }
  }

  /** The bucket sits in the list with a predecessor and a successor. */
  predicate Interior(u: seq<Id>, id: Id)
  {
    |u| >= 2 && id in u[1..|u| - 1]
  }

  /**
   * The precondition `dict_remove` needs to be defined: the bucket it unlinks has
   * a predecessor and a successor in its usage list, and a missing key is only
   * reported when a retiring table exists.
   */
  ghost predicate RemoveDefined<V>(d: Dict<V>, k: Key)
  {
    && DictValid(d)
    && match Find(d.ht, k)
       case Some(b) => Interior(d.ht.usage, b)
       case None =>
         && d.htOld.Some?
         && (Find(d.htOld.value, k).Some? ==> Interior(d.htOld.value.usage, Find(d.htOld.value, k).value))
  }

  /** The position of a bucket that is neither first nor last in a list of distinct buckets. */
  lemma InteriorIndex(u: seq<Id>, id: Id)
    requires Distinct(u) && Interior(u, id)
    ensures 0 < IndexOf(u, id) < |u| - 1
  {
    var q :| 1 <= q < |u| - 1 && u[q] == id;
    assert u[1..|u| - 1][q - 1] == id;
  }

  /** Taking one bucket out of the usage list keeps the table invariant. */
  lemma UnlistValid<V>(t: Table<V>, p: nat)
    requires Valid(t) && p < |t.usage|
    ensures Valid(t.(usage := Unlink(t.usage, p))) && t.usage[p] !in Unlink(t.usage, p)
  {
    var u := Unlink(t.usage, p);
    assert forall i | 0 <= i < |u| :: u[i] == if i < p then t.usage[i] else t.usage[i + 1];
    RelistValid(t, u);
  }

  /**
   * The unlinking in `dict_remove`: `prev->next` and `next->prev` bypass the
   * bucket in the usage list, then `bucket_free` runs on it, with correct back
   * links (`ChainedTable.Release`).
   */
  function Detach<V>(t: Table<V>, id: Id): (r: Table<V>)
    requires Valid(t) && Interior(t.usage, id)
    ensures Valid(r) && Capacity(r) == Capacity(t)
    ensures r.usage == Unlink(t.usage, IndexOf(t.usage, id))
    ensures IsHead(t, id) ==> r.slots == t.slots && r.nodes == t.nodes
    ensures !IsHead(t, id) ==> r.nodes == t.nodes - {id} && Find(r, t.nodes[id].key).None?
  {
    var p := IndexOf(t.usage, id);
    UnlistValid(t, p);
    Release(t.(usage := Unlink(t.usage, p)), id)
  }

  /**
   * What the table yields after a bucket is detached: nothing for the bucket's
   * key when it sat behind the head, the old value otherwise; and every other
   * key is untouched. A detached resident head therefore stays visible.
   */
  lemma DetachView<V>(t: Table<V>, id: Id, k': Key)
    requires Valid(t) && Interior(t.usage, id)
    ensures id in t.nodes
    ensures ValueOf(Detach(t, id), k') ==
              if k' == t.nodes[id].key && !IsHead(t, id) then None else ValueOf(t, k')
  {
    var p := IndexOf(t.usage, id);
    InteriorIndex(t.usage, id);
    var t' := t.(usage := Unlink(t.usage, p));
    assert Valid(t') && id !in t'.usage by {
      UnlistValid(t, p);
    }
    assert ValueOf(t', k') == ValueOf(t, k') by {
      SameHoldersSameValue(t, t', k');
    }
    assert Detach(t, id) == Release(t', id);
    if k' != t.nodes[id].key {
      ReleaseKeepsOthers(t', id, k');
    }
  }

  /** Taking an element out of a list takes exactly one copy of it out of its multiset. */
  lemma UnlinkMultiset<T>(s: seq<T>, p: nat)
    requires p < |s|
    ensures multiset(Unlink(s, p)) + multiset{s[p]} == multiset(s)
  {
    assert s == s[..p] + [s[p]] + s[p + 1..];
  }

  /** The walk of a table whose usage list lost position p is the old walk without position p. */
  lemma UnlistVisit<V>(t: Table<V>, p: nat)
    requires Valid(t) && p < |t.usage|
    ensures Valid(t.(usage := Unlink(t.usage, p)))
    ensures Visit(t.(usage := Unlink(t.usage, p))) == Unlink(Visit(t), p)
  {
    UnlistValid(t, p);
    var t' := t.(usage := Unlink(t.usage, p));
    var ps, ps' := Visit(t), Visit(t');
    var u := Unlink(ps, p);
    assert |u| == |ps'|;
    forall i | 0 <= i < |ps'|
      ensures ps'[i] == u[i]
    {
      if i < p {
        assert t'.usage[i] == t.usage[i] && u[i] == ps[i];
      } else {
        assert t'.usage[i] == t.usage[i + 1] && u[i] == ps[i + 1];
      }
    }
  }

  /** Detaching a listed bucket drops exactly its pair from the table's walk, at its position. */
  lemma DetachVisit<V>(t: Table<V>, id: Id)
    requires Valid(t) && Interior(t.usage, id)
    ensures id in t.nodes
    ensures var p := IndexOf(t.usage, id);
            && 0 < p < |t.usage| - 1
            && Visit(Detach(t, id)) == Unlink(Visit(t), p)
  {
    var p := IndexOf(t.usage, id);
    InteriorIndex(t.usage, id);
    var t' := t.(usage := Unlink(t.usage, p));
    assert Valid(t') && id !in t'.usage && Visit(t') == Unlink(Visit(t), p) by {
      UnlistValid(t, p);
      UnlistVisit(t, p);
    }
    assert Visit(Detach(t, id)) == Visit(t') by {
      assert Detach(t, id) == Release(t', id);
      ReleaseVisit(t', id);
    }
  }

  /** Detaching a listed bucket takes exactly one copy of its pair out of the multiset of the walk. */
  lemma DetachMultiset<V>(t: Table<V>, id: Id)
    requires Valid(t) && Interior(t.usage, id)
    ensures id in t.nodes
    ensures |Visit(Detach(t, id))| == |Visit(t)| - 1
    ensures multiset(Visit(Detach(t, id))) + multiset{(t.nodes[id].key, t.nodes[id].val)} == multiset(Visit(t))
  {
    DetachVisit(t, id);
    var p := IndexOf(t.usage, id);
    var ps := Visit(t);
    assert ps[p] == (t.nodes[id].key, t.nodes[id].val);
    UnlinkMultiset(ps, p);
  }

  /** The outcome of `dict_remove`: the dictionary and the status, 0 or -1. */
  datatype Removal<V> = Removal(dict: Dict<V>, status: int)

  /**
   * `dict_remove`: find the bucket in the active table, then in the retiring one;
   * -1 when neither holds the key, else the bucket is detached and the count drops.
   */
  function Remove<V>(d: Dict<V>, k: Key): (r: Removal<V>)
    requires RemoveDefined(d, k)
    ensures DictValid(r.dict)
    ensures r.status == -1 || r.status == 0
    ensures r.status == -1 <==> Get(d, k).None?
    ensures r.status == -1 ==> r.dict == d
    ensures r.status == 0 ==> r.dict.count == d.count - 1
  {
    match Find(d.ht, k)
    case Some(b) =>
      Removal(Dict(d.count - 1, Detach(d.ht, b), d.htOld), 0)
    case None =>
      match Find(d.htOld.value, k)
      case Some(b) => Removal(Dict(d.count - 1, d.ht, Some(Detach(d.htOld.value, b))), 0)
      case None => Removal(d, -1)
  }

  /**
   * What each table of the dictionary yields after `dict_remove`: the table the
   * bucket was detached from loses the key unless the bucket was its chain's
   * resident head, and nothing else changes.
   */
  lemma RemoveView<V>(d: Dict<V>, k: Key, k': Key)
    requires RemoveDefined(d, k)
    ensures var r := Remove(d, k).dict;
            match Find(d.ht, k)
            case Some(b) =>
              && r.htOld == d.htOld
              && ValueOf(r.ht, k') == if k' == k && !IsHead(d.ht, b) then None else ValueOf(d.ht, k')
            case None =>
              && r.ht == d.ht && r.htOld.Some?
              && ValueOf(r.htOld.value, k') ==
                   match Find(d.htOld.value, k)
                   case Some(b) => if k' == k && !IsHead(d.htOld.value, b) then None else ValueOf(d.htOld.value, k')
                   case None => ValueOf(d.htOld.value, k')
  {
    match Find(d.ht, k)
    case Some(b) => DetachView(d.ht, b, k');
    case None =>
      match Find(d.htOld.value, k)
      case Some(b) => DetachView(d.htOld.value, b, k');
      case None =>
  }

  /**
   * Removing a key whose bucket is the resident head of its chain in the active
   * table reports success, yet `dict_get` still returns the removed value.
   */
  lemma RemovedHeadStillFound<V>(d: Dict<V>, k: Key)
    requires RemoveDefined(d, k) && Find(d.ht, k).Some? && IsHead(d.ht, Find(d.ht, k).value)
    ensures Remove(d, k).status == 0
    ensures Get(Remove(d, k).dict, k) == Get(d, k) != None
  {
    RemoveView(d, k, k);
  }

  /**
   * After a resident head of the active table is removed, `dict_get` still finds
   * its bucket but the bucket is no longer on the usage list, so a second
   * `dict_remove` of the same key falls outside `RemoveDefined`.
   */
  lemma RemovedHeadLeavesList<V>(d: Dict<V>, k: Key)
    requires RemoveDefined(d, k) && Find(d.ht, k).Some? && IsHead(d.ht, Find(d.ht, k).value)
    ensures Get(Remove(d, k).dict, k).Some?
    ensures !RemoveDefined(Remove(d, k).dict, k)
  {
    var b := Find(d.ht, k).value;
    var r := Remove(d, k).dict;
    RemovedHeadStillFound(d, k);
    assert b in d.ht.nodes && d.ht.nodes[b].key == k;
    assert r.ht.nodes == d.ht.nodes && b !in r.ht.usage by {
      UnlistValid(d.ht, IndexOf(d.ht.usage, b));
    }
    FindHolder(r.ht, k, b);
  }

  /**
   * A successful removal takes exactly the pair `Get` returned out of the pairs
   * `dict_foreach` visits.
   */
  lemma RemoveForEach<V>(d: Dict<V>, k: Key)
    requires RemoveDefined(d, k)
    ensures var r := Remove(d, k);
            r.status == 0 ==>
              && |ForEach(r.dict)| == |ForEach(d)| - 1
              && multiset(ForEach(r.dict)) + multiset{(k, Get(d, k).value)} == multiset(ForEach(d))
  {
    match Find(d.ht, k)
    case Some(b) => RemoveActiveForEach(d, k, b);
    case None =>
      match Find(d.htOld.value, k)
      case Some(b) => RemoveRetiringForEach(d, k, b);
      case None =>
  }

  lemma RemoveActiveForEach<V>(d: Dict<V>, k: Key, b: Id)
    requires RemoveDefined(d, k) && Find(d.ht, k) == Some(b)
    ensures var r := Remove(d, k);
            && |ForEach(r.dict)| == |ForEach(d)| - 1
            && multiset(ForEach(r.dict)) + multiset{(k, Get(d, k).value)} == multiset(ForEach(d))
  {
    GetActive(d, k, b);
    DetachActiveForEach(d, b);
  }

  lemma RemoveRetiringForEach<V>(d: Dict<V>, k: Key, b: Id)
    requires RemoveDefined(d, k) && Find(d.ht, k).None? && Find(d.htOld.value, k) == Some(b)
    ensures var r := Remove(d, k);
            && |ForEach(r.dict)| == |ForEach(d)| - 1
            && multiset(ForEach(r.dict)) + multiset{(k, Get(d, k).value)} == multiset(ForEach(d))
  {
    GetRetiring(d, k, b);
    DetachRetiringForEach(d, b);
  }

  /** Detaching a bucket of the active table removes its pair from the dictionary's walk. */
  lemma DetachActiveForEach<V>(d: Dict<V>, b: Id)
    requires DictValid(d) && Interior(d.ht.usage, b)
    ensures b in d.ht.nodes
    ensures var d' := Dict(d.count - 1, Detach(d.ht, b), d.htOld);
            && |ForEach(d')| == |ForEach(d)| - 1
            && multiset(ForEach(d')) + multiset{(d.ht.nodes[b].key, d.ht.nodes[b].val)} == multiset(ForEach(d))
  {
    DetachMultiset(d.ht, b);
    SwapForEach(d, Dict(d.count - 1, Detach(d.ht, b), d.htOld), (d.ht.nodes[b].key, d.ht.nodes[b].val));
  }

  /** Detaching a bucket of the retiring table removes its pair from the dictionary's walk. */
  lemma DetachRetiringForEach<V>(d: Dict<V>, b: Id)
    requires DictValid(d) && d.htOld.Some? && Interior(d.htOld.value.usage, b)
    ensures b in d.htOld.value.nodes
    ensures var d' := Dict(d.count - 1, d.ht, Some(Detach(d.htOld.value, b)));
            && |ForEach(d')| == |ForEach(d)| - 1
            && multiset(ForEach(d')) + multiset{(d.htOld.value.nodes[b].key, d.htOld.value.nodes[b].val)} == multiset(ForEach(d))
  {
    var t := d.htOld.value;
    DetachMultiset(t, b);
    SwapForEach(d, Dict(d.count - 1, d.ht, Some(Detach(t, b))), (t.nodes[b].key, t.nodes[b].val));
  }

  /** Replacing one table by another whose walk lacks one copy of `x` takes that copy out of the dictionary's walk. */
  lemma SwapForEach<V>(d: Dict<V>, d': Dict<V>, x: (Key, V))
    requires DictValid(d) && DictValid(d')
    requires d'.htOld.Some? == d.htOld.Some?
    requires || (d'.htOld == d.htOld && |Visit(d'.ht)| == |Visit(d.ht)| - 1
                 && multiset(Visit(d'.ht)) + multiset{x} == multiset(Visit(d.ht)))
             || (d'.ht == d.ht && d.htOld.Some? && |Visit(d'.htOld.value)| == |Visit(d.htOld.value)| - 1
                 && multiset(Visit(d'.htOld.value)) + multiset{x} == multiset(Visit(d.htOld.value)))
    ensures |ForEach(d')| == |ForEach(d)| - 1
    ensures multiset(ForEach(d')) + multiset{x} == multiset(ForEach(d))
  {
    var rest := if d.htOld.Some? then Visit(d.htOld.value) else [];
    if d'.htOld == d.htOld && |Visit(d'.ht)| == |Visit(d.ht)| - 1
       && multiset(Visit(d'.ht)) + multiset{x} == multiset(Visit(d.ht)) {
      ConcatRemoval(Visit(d.ht), Visit(d'.ht), [], rest, x);
    } else {
      ConcatRemoval(Visit(d.htOld.value), Visit(d'.htOld.value), Visit(d.ht), [], x);
    }
  }

  /** Removing one copy of `x` from the middle part of a concatenation. */
  lemma ConcatRemoval<T>(a: seq<T>, a': seq<T>, pre: seq<T>, post: seq<T>, x: T)
    requires |a'| == |a| - 1 && multiset(a') + multiset{x} == multiset(a)
    ensures |pre + a' + post| == |pre + a + post| - 1
    ensures multiset(pre + a' + post) + multiset{x} == multiset(pre + a + post)
  {
  }

  /** `Get` returns the value of the active table's bucket for the key. */
  lemma GetActive<V>(d: Dict<V>, k: Key, b: Id)
    requires DictValid(d) && Find(d.ht, k) == Some(b)
    ensures b in d.ht.nodes && d.ht.nodes[b].key == k && Get(d, k) == Some(d.ht.nodes[b].val)
  {
  }

  /** `Get` falls back to the retiring table's bucket when the active table has none. */
  lemma GetRetiring<V>(d: Dict<V>, k: Key, b: Id)
    requires DictValid(d) && Find(d.ht, k).None? && d.htOld.Some? && Find(d.htOld.value, k) == Some(b)
    ensures b in d.htOld.value.nodes && d.htOld.value.nodes[b].key == k && Get(d, k) == Some(d.htOld.value.nodes[b].val)
  {
  }

  /**
   * `dict_foreach`: the pairs of the active usage list, then those of the
   * retiring one, each in list order.
   */
  function ForEach<V>(d: Dict<V>): (r: seq<(Key, V)>)
    requires DictValid(d)
    ensures |r| == |d.ht.usage| + (if d.htOld.Some? then |d.htOld.value.usage| else 0)
  {
    Visit(d.ht) + (if d.htOld.Some? then Visit(d.htOld.value) else [])
  }
}
