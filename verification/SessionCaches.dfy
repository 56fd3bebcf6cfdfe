/**
 The session cache: one table of promises under string keys, shared by all loaders. A promise is kept as what it
 settles to; a loader is kept as the promise it returns if it is called.
 */
module SessionCaches {
  import opened Sequences
  import opened CacheKeys

  datatype Promise<V> = Resolved(value: V) | Rejected(error: string)

  datatype Operation<V> =
    | Load(key: string, loader: Promise<V>, force: bool)
    | Store(key: string, value: V)
    | Clear

  class SessionCache<V> {
    var cache: map<string, Promise<V>>

    constructor ()
      ensures cache == map[]
    {
      cache := map[];
    }

    method Clear()
      modifies this
      ensures cache == After(old(cache), Operation<V>.Clear)
    {
      cache := map[];
    }

    method StoreToCache(key: string, data: V)
      modifies this
      ensures cache == After(old(cache), Store(key, data))
    {
      cache := cache[key := Resolved(data)];
    }

    // ran says whether the loader was called. A null key is answered with null.
    method LoadDataAsync(dataKey: Option<string>, loader: Promise<V>, forceReload: bool)
      returns (answer: Option<Promise<V>>, ran: bool)
      modifies this
      ensures dataKey.None? ==> answer == None && !ran && cache == old(cache)
      ensures dataKey.Some? ==>
        cache == After(old(cache), Load(dataKey.value, loader, forceReload))
        && answer == Some(cache[dataKey.value])
        && (ran <==> Runs(old(cache), Load(dataKey.value, loader, forceReload)))
    {
      if dataKey.None? {
        return None, false;
      }
      if dataKey.value in cache && !forceReload {
        return Some(cache[dataKey.value]), false;
      }
      cache := cache[dataKey.value := loader];
      return Some(loader), true;
    }

    method LoadEntity(entity: Entity, loader: Promise<V>, forceReload: bool) returns (answer: Promise<V>)
      modifies this
      ensures cache == After(old(cache), Load(Key(entity), loader, forceReload)) && answer == cache[Key(entity)]
    {
      var loaded, _ := LoadDataAsync(Some(Key(entity)), loader, forceReload);
      answer := loaded.value;
    }
  }

  // ---------- Runs of operations ----------

  predicate Runs<V>(cache: map<string, Promise<V>>, op: Operation<V>) {
    op.Load? && (op.key !in cache || op.force)
  }

  function After<V>(cache: map<string, Promise<V>>, op: Operation<V>): (r: map<string, Promise<V>>)
    ensures !op.Clear? ==> op.key in r
  {
    match op
    case Clear => map[]
    case Store(key, value) => cache[key := Resolved(value)]
    case Load(key, loader, _) => if Runs(cache, op) then cache[key := loader] else cache
  }

  function Run<V>(ops: seq<Operation<V>>): map<string, Promise<V>> {
    if ops == [] then map[] else After(Run(ops[..|ops| - 1]), ops[|ops| - 1])
  }

  // The i-th operation puts a value under the key: a store, or a load whose loader is called.
  predicate Writes<V>(ops: seq<Operation<V>>, i: nat, key: string)
    requires i < |ops|
  {
    !ops[i].Clear? && ops[i].key == key && (ops[i].Store? || Runs(Run(ops[..i]), ops[i]))
  }

  function Written<V>(op: Operation<V>): Promise<V>
    requires !op.Clear?
  {
    if op.Store? then Resolved(op.value) else op.loader
  }

  // Position i wrote the key last among the operations before n, and nothing was cleared since.
  ghost predicate LatestWrite<V>(ops: seq<Operation<V>>, i: nat, n: nat, key: string)
    requires n <= |ops|
  {
    i < n && Writes(ops, i, key) && forall k :: i < k < n ==> !ops[k].Clear? && !Writes(ops, k, key)
  }

  lemma {:induction false} CacheHoldsLatestWrite<V>(ops: seq<Operation<V>>, n: nat, key: string)
    requires n <= |ops|
    ensures key in Run(ops[..n]) <==> exists i: nat :: LatestWrite(ops, i, n, key)
    ensures forall i: nat :: LatestWrite(ops, i, n, key) ==> Run(ops[..n])[key] == Written(ops[i])
    decreases n
  {
    if n > 0 {
      var m: nat := n - 1;
      assert ops[..n][..m] == ops[..m];
      CacheHoldsLatestWrite(ops, m, key);
      if ops[m].Clear? {
        assert forall i: nat :: !LatestWrite(ops, i, n, key);
      } else if Writes(ops, m, key) {
        assert LatestWrite(ops, m, n, key);
      } else {
        assert Run(ops[..n]) == After(Run(ops[..m]), ops[m]);
        forall i: nat ensures LatestWrite(ops, i, n, key) <==> LatestWrite(ops, i, m, key) {
        }
        if i: nat :| LatestWrite(ops, i, m, key) {
          assert LatestWrite(ops, i, n, key);
        }
        if i: nat :| LatestWrite(ops, i, n, key) {
          assert LatestWrite(ops, i, m, key);
        }
      }
    }
  }

  // Every load, in every run, answers with the latest value written to its key, possibly by itself. A rejected
  // promise is a written value like any other, so a failed load stays cached.
  lemma LoadAnswersLatestWrite<V>(ops: seq<Operation<V>>, n: nat)
    requires n < |ops| && ops[n].Load?
    ensures ops[n].key in Run(ops[..n + 1])
    ensures exists i: nat :: LatestWrite(ops, i, n + 1, ops[n].key) && Run(ops[..n + 1])[ops[n].key] == Written(ops[i])
  {
    assert ops[..n + 1][..n] == ops[..n];
    CacheHoldsLatestWrite(ops, n + 1, ops[n].key);
  }

  // Between two calls of a key's loader the cache was cleared, or the second load was forced.
  lemma LoaderRunsOnce<V>(ops: seq<Operation<V>>, i: nat, j: nat)
    requires i < j < |ops| && ops[i].Load? && ops[j].Load? && ops[i].key == ops[j].key
    requires Runs(Run(ops[..i]), ops[i]) && Runs(Run(ops[..j]), ops[j])
    ensures ops[j].force || exists k :: i < k < j && ops[k].Clear?
  {
    if forall k :: i < k < j ==> !ops[k].Clear? {
      CachedSince(ops, i, j, ops[i].key);
    }
  }

  lemma {:induction false} CachedSince<V>(ops: seq<Operation<V>>, i: nat, j: nat, key: string)
    requires i < j <= |ops| && !ops[i].Clear? && ops[i].key == key
    requires forall k :: i < k < j ==> !ops[k].Clear?
    ensures key in Run(ops[..j])
    decreases j
  {
    assert ops[..j][..j - 1] == ops[..j - 1];
    if i + 1 < j {
      CachedSince(ops, i, j - 1, key);
    }
  }

  // The k-th operation stores or loads the key, and nothing was cleared between it and position n.
  ghost predicate Touched<V>(ops: seq<Operation<V>>, k: nat, n: nat, key: string)
    requires n <= |ops|
  {
    k < n && !ops[k].Clear? && ops[k].key == key && forall m :: k < m < n ==> !ops[m].Clear?
  }

  // A load calls its loader exactly if it is forced, or the key was neither stored nor loaded since the last clear.
  lemma LoaderIsCalledExactly<V>(ops: seq<Operation<V>>, n: nat)
    requires n < |ops| && ops[n].Load?
    ensures Runs(Run(ops[..n]), ops[n]) <==> ops[n].force || !exists k: nat :: Touched(ops, k, n, ops[n].key)
  {
    var key := ops[n].key;
    CacheHoldsLatestWrite(ops, n, key);
    if k: nat :| Touched(ops, k, n, key) {
      CachedSince(ops, k, n, key);
    }
    if i: nat :| LatestWrite(ops, i, n, key) {
      assert Touched(ops, i, n, key);
    }
  }

  // The k-th operation puts a value under the key: a store, a forced load, or the first load since the last clear.
  ghost predicate Settles<V>(ops: seq<Operation<V>>, k: nat, key: string)
    requires k < |ops|
  {
    !ops[k].Clear? && ops[k].key == key
    && (ops[k].Store? || ops[k].force || !exists m: nat :: Touched(ops, m, k, key))
  }

  // A load is answered with what the latest such operation stored or what its loader returned, be it the load itself
  // or an earlier operation since the last clear.
  lemma LoadAnswersExactly<V>(ops: seq<Operation<V>>, k: nat, n: nat)
    requires k <= n < |ops| && ops[n].Load?
    requires Settles(ops, k, ops[n].key)
    requires forall m :: k < m <= n ==> !ops[m].Clear? && !Settles(ops, m, ops[n].key)
    ensures ops[n].key in Run(ops[..n + 1])
    ensures Run(ops[..n + 1])[ops[n].key] == if ops[k].Store? then Resolved(ops[k].value) else ops[k].loader
  {
    var key := ops[n].key;
    hide Run, Runs, Touched;
    forall m: nat | m <= n && !ops[m].Clear? && ops[m].key == key
      ensures Writes(ops, m, key) <==> Settles(ops, m, key)
    {
      if ops[m].Load? {
        LoaderIsCalledExactly(ops, m);
      }
    }
    CacheHoldsLatestWrite(ops, n + 1, key);
    assert LatestWrite(ops, k, n + 1, key);
  }

  // ---------- Loads by entity ----------

  // The operations as the wrappers issue them.
  datatype EntityOperation<V> =
    | LoadOf(entity: Entity, loader: Promise<V>, force: bool)
    | StoreOf(entity: Entity, value: V)
    | ClearAll
  {
    ghost predicate Valid() {
      ClearAll? || ValidEntity(entity)
    }

    function Keyed(): Operation<V> {
      match this
      case LoadOf(entity, loader, force) => Load(Key(entity), loader, force)
      case StoreOf(entity, value) => Store(Key(entity), value)
      case ClearAll => Operation.Clear
    }
  }

  function AllKeyed<V>(ops: seq<EntityOperation<V>>): (r: seq<Operation<V>>)
    ensures |r| == |ops| && forall i :: 0 <= i < |ops| ==> r[i] == ops[i].Keyed()
  {
    seq(|ops|, i requires 0 <= i < |ops| => ops[i].Keyed())
  }

  // The i-th operation wrote, for the same entity, what the n-th one answers, and none between them cleared the
  // cache, stored that entity or forced its reload.
  ghost predicate AnsweredBy<V>(ops: seq<EntityOperation<V>>, i: nat, n: nat)
    requires i <= n < |ops| && ops[n].LoadOf? && Key(ops[n].entity) in Run(AllKeyed(ops)[..n + 1])
  {
    !ops[i].ClearAll? && ops[i].entity == ops[n].entity
    && Run(AllKeyed(ops)[..n + 1])[Key(ops[n].entity)] == Written(ops[i].Keyed())
    && forall k :: i < k <= n ==>
         !ops[k].ClearAll? && (ops[k].entity == ops[n].entity ==> ops[k].LoadOf? && !ops[k].force)
  }

  // A load of an entity is only ever answered with a value that was loaded or stored for that same entity, and it
  // is the latest such value: the shared string table behaves as one table per builder and arguments.
  lemma EntityLoadIsItsOwn<V>(ops: seq<EntityOperation<V>>, n: nat)
    requires forall op | op in ops :: op.Valid()
    requires n < |ops| && ops[n].LoadOf?
    ensures Key(ops[n].entity) in Run(AllKeyed(ops)[..n + 1])
    ensures exists i: nat :: i <= n && AnsweredBy(ops, i, n)
  {
    var keyed := AllKeyed(ops);
    var key := Key(ops[n].entity);
    assert keyed[n].key == key;
    LoadAnswersLatestWrite(keyed, n);
    var i: nat :| LatestWrite(keyed, i, n + 1, key) && Run(keyed[..n + 1])[key] == Written(keyed[i]);
    assert ops[i] in ops && ops[n] in ops;
    KeysDoNotCollide(ops[i].entity, ops[n].entity);
    forall k | i < k <= n
      ensures !ops[k].ClearAll? && (ops[k].entity == ops[n].entity ==> ops[k].LoadOf? && !ops[k].force)
    {
      assert !keyed[k].Clear? && !Writes(keyed, k, key);
    }
    assert AnsweredBy(ops, i, n);
  }
}
