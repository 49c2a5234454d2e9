// How long the bounded cache remembers an entry: as long as fewer other keys are
// used after it than the cache holds, and no longer than as many are inserted
// (crates/notm-ui/src/cache.rs).
module LruRecency {
  import opened MailText
  import opened LruCache

  ghost predicate AvoidsKey<K, V>(ops: seq<Operation<K, V>>, key: K) {
    forall i | 0 <= i < |ops| :: !ops[i].Clear? && ops[i].key != key
  }

  /** The keys that are looked up or inserted. */
  ghost function UsedKeys<K, V>(ops: seq<Operation<K, V>>): set<K> {
    set i | 0 <= i < |ops| && !ops[i].Clear? :: ops[i].key
  }

  ghost function InsertedKeys<K, V>(ops: seq<Operation<K, V>>): set<K> {
    set i | 0 <= i < |ops| && ops[i].Insert? :: ops[i].key
  }

  // ---- What is more recent than a place in the list

  ghost function KeysBehind<K, V>(list: seq<(K, V)>, p: int): set<K> {
    set i | 0 <= i < |list| && p < i :: list[i].0
  }

  lemma {:induction false} CountBehind<K, V>(list: seq<(K, V)>, p: int)
    requires KeysAreDistinct(list) && -1 <= p < |list|
    ensures |KeysBehind(list, p)| == |list| - 1 - p
    decreases |list| - p
  {
    if p < |list| - 1 {
      CountBehind(list, p + 1);
      assert KeysBehind(list, p) == KeysBehind(list, p + 1) + {list[p + 1].0};
    }
  }

  lemma SubsetIsSmaller<K>(a: set<K>, b: set<K>)
    requires a <= b
    ensures |a| <= |b|
  {
    assert b == a + (b - a);
  }

  /** The key stands at p; what is behind it was used since, and what was inserted
      since is behind it. */
  ghost predicate Stands<K, V>(list: seq<(K, V)>, capacity: nat, key: K, value: V, used: set<K>, inserted: set<K>,
                               p: nat)
  {
    && KeysAreDistinct(list) && p < |list| <= capacity && list[p] == (key, value)
    && KeysBehind(list, p) <= used && inserted <= KeysBehind(list, p)
  }

  ghost predicate IsGone<K, V>(list: seq<(K, V)>, capacity: nat, key: K, used: set<K>) {
    && KeysAreDistinct(list) && |list| <= capacity && Found(list, key).None?
    && |used| >= capacity
  }

  lemma BehindMoved<K, V>(list: seq<(K, V)>, p: nat, q: nat, now: V)
    requires KeysAreDistinct(list) && p < |list| && q < |list| && q != p
    ensures KeysBehind(Moved(list, q, now), if q < p then p - 1 else p) == KeysBehind(list, p) + {list[q].0}
  {
    var moved, other := Moved(list, q, now), list[q].0;
    var p' := if q < p then p - 1 else p;
    forall i | 0 <= i < |moved| && p' < i
      ensures moved[i].0 in KeysBehind(list, p) + {other}
    {
      if i < |moved| - 1 {
        assert moved[i] == list[if i < q then i else i + 1];
      }
    }
    forall i | p < i < |list|
      ensures list[i].0 in KeysBehind(moved, p')
    {
      assert moved[if i < q then i else if i == q then |list| - 1 else i - 1].0 == list[i].0;
    }
    assert moved[|list| - 1].0 == other;
  }

  lemma OthersMove<K, V>(list: seq<(K, V)>, capacity: nat, key: K, value: V, used: set<K>, inserted: set<K>, p: nat,
                         q: nat, now: V)
    requires Stands(list, capacity, key, value, used, inserted, p) && q < |list| && q != p
    ensures var p' := if q < p then p - 1 else p;
      var other := list[q].0;
      Stands(Moved(list, q, now), capacity, key, value, used + {other}, inserted + {other}, p')
  {
    BehindMoved(list, p, q, now);
    MovedFinds(list, q, now, key);
    hide KeysBehind, KeysAreDistinct, Found;
  }

  lemma BehindAppended<K, V>(list: seq<(K, V)>, p: int, other: K, value: V)
    requires -1 <= p < |list|
    ensures KeysBehind(list + [(other, value)], p) == KeysBehind(list, p) + {other}
  {
    var after := list + [(other, value)];
    assert after[|list|].0 == other;
    forall i | 0 <= i < |list| && p < i
      ensures list[i].0 in KeysBehind(after, p)
    {
      assert after[i] == list[i];
    }
  }

  lemma BehindDropped<K, V>(list: seq<(K, V)>, p: int)
    requires 0 <= p < |list|
    ensures KeysBehind(list[1..], p - 1) == KeysBehind(list, p)
  {
    var rest := list[1..];
    forall i | 0 <= i < |list| && p < i
      ensures list[i].0 in KeysBehind(rest, p - 1)
    {
      assert rest[i - 1] == list[i];
    }
  }

  /** Inserting another key that is new moves the key towards the front, and out
      of a full list if it is there already. */
  lemma OtherIsInserted<K, V>(list: seq<(K, V)>, capacity: nat, key: K, value: V, used: set<K>, inserted: set<K>,
                              p: nat, other: K, now: V)
    requires Stands(list, capacity, key, value, used, inserted, p) && Found(list, other).None? && other != key
    ensures var after := AfterInsert(list, capacity, other, now);
      if |list| < capacity then Stands(after, capacity, key, value, used + {other}, inserted + {other}, p)
      else if p > 0 then Stands(after, capacity, key, value, used + {other}, inserted + {other}, p - 1)
      else IsGone(after, capacity, key, used + {other})
  {
    FoundAt(list, p);
    InsertForgetsTheOldest(list, capacity, other, now, key);
    if |list| < capacity {
      BehindAppended(list, p, other, now);
    } else {
      BehindDropped(list, p);
      BehindAppended(list[1..], p - 1, other, now);
      if p == 0 {
        CountBehind(list, 0);
        NotBehind(list, 0, other);
        SubsetIsSmaller(KeysBehind(list, 0) + {other}, used + {other});
      }
    }
    hide KeysBehind, KeysAreDistinct;
  }

  lemma NotBehind<K, V>(list: seq<(K, V)>, p: int, other: K)
    requires Found(list, other).None?
    ensures other !in KeysBehind(list, p)
  {
  }

  // ---- Runs

  lemma UsesMore<K, V>(list: seq<(K, V)>, capacity: nat, key: K, value: V, used: set<K>, inserted: set<K>, p: nat,
                       more: set<K>)
    requires Stands(list, capacity, key, value, used, inserted, p)
    ensures Stands(list, capacity, key, value, used + more, inserted, p)
  {
    hide KeysBehind, KeysAreDistinct;
  }

  lemma FewerInserted<K, V>(list: seq<(K, V)>, capacity: nat, key: K, value: V, used: set<K>, inserted: set<K>, p: nat,
                            fewer: set<K>)
    requires Stands(list, capacity, key, value, used, inserted, p) && fewer <= inserted
    ensures Stands(list, capacity, key, value, used, fewer, p)
  {
    hide KeysBehind, KeysAreDistinct;
  }

  /** Where the key is after the run so far: in its place, or gone for good. */
  ghost predicate IsKept<K, V>(list: seq<(K, V)>, capacity: nat, key: K, value: V, used: set<K>, inserted: set<K>) {
    || (exists p: nat :: Stands(list, capacity, key, value, used, inserted, p))
    || IsGone(list, capacity, key, used)
  }

  lemma GoneStaysGone<K, V>(list: seq<(K, V)>, capacity: nat, key: K, used: set<K>, op: Operation<K, V>)
    requires IsGone(list, capacity, key, used) && !op.Clear? && op.key != key && capacity > 0
    ensures IsGone(After(list, capacity, op), capacity, key, used + {op.key})
  {
    if op.Get? {
      GetForgetsNothing(list, op.key, key);
    } else {
      InsertForgetsTheOldest(list, capacity, op.key, op.value, key);
    }
    SubsetIsSmaller(used, used + {op.key});
    hide KeysAreDistinct, Found;
  }

  lemma OneMoreOperation<K, V>(list: seq<(K, V)>, capacity: nat, key: K, value: V, used: set<K>, inserted: set<K>,
                               op: Operation<K, V>)
    requires IsKept(list, capacity, key, value, used, inserted)
    requires !op.Clear? && op.key != key && capacity > 0
    ensures IsKept(After(list, capacity, op), capacity, key, value, used + {op.key},
                   inserted + if op.Insert? then {op.key} else {})
  {
    hide Stands, IsGone, AfterInsert, Moved, KeysBehind, KeysAreDistinct;
    if IsGone(list, capacity, key, used) {
      GoneStaysGone(list, capacity, key, used, op);
    } else {
      var p: nat :| Stands(list, capacity, key, value, used, inserted, p);
      var q := Position(list, op.key);
      if q.Some? {
        KeyElsewhere(list, capacity, key, value, used, inserted, p, op.key, q.value);
        var now := if op.Get? then list[q.value].1 else op.value;
        OthersMove(list, capacity, key, value, used, inserted, p, q.value, now);
        InsertMoves(list, capacity, op.key, now);
        FewerInserted(After(list, capacity, op), capacity, key, value, used + {op.key}, inserted + {op.key},
                      if q.value < p then p - 1 else p, inserted + if op.Insert? then {op.key} else {});
      } else if op.Get? {
        UsesMore(list, capacity, key, value, used, inserted, p, {op.key});
        assert inserted + {} == inserted;
      } else {
        OtherIsInserted(list, capacity, key, value, used, inserted, p, op.key, op.value);
      }
    }
  }

  lemma InsertMoves<K, V>(list: seq<(K, V)>, capacity: nat, key: K, value: V)
    requires Position(list, key).Some?
    ensures AfterInsert(list, capacity, key, value) == Moved(list, Position(list, key).value, value)
  {
  }

  lemma KeyElsewhere<K, V>(list: seq<(K, V)>, capacity: nat, key: K, value: V, used: set<K>, inserted: set<K>, p: nat,
                           other: K, q: nat)
    requires Stands(list, capacity, key, value, used, inserted, p) && other != key && Position(list, other) == Some(q)
    ensures q < |list| && q != p && list[q].0 == other
  {
  }

  lemma {:induction false} KeptOverRun<K, V>(list: seq<(K, V)>, capacity: nat, key: K, value: V,
                                             ops: seq<Operation<K, V>>)
    requires capacity > 0 && IsKept(list, capacity, key, value, {}, {}) && AvoidsKey(ops, key)
    ensures IsKept(AfterAll(list, capacity, ops), capacity, key, value, UsedKeys(ops), InsertedKeys(ops))
    decreases |ops|
  {
    hide IsKept, After, AvoidsKey, UsedKeys, InsertedKeys;
    if ops == [] {
      NoKeys<K, V>();
    } else {
      var front, op := ops[..|ops| - 1], ops[|ops| - 1];
      KeysGrow(ops, key);
      KeptOverRun(list, capacity, key, value, front);
      OneMoreOperation(AfterAll(list, capacity, front), capacity, key, value, UsedKeys(front), InsertedKeys(front), op);
    }
  }

  lemma NoKeys<K, V>()
    ensures UsedKeys<K, V>([]) == {} && InsertedKeys<K, V>([]) == {}
  {
  }

  lemma KeysGrow<K, V>(ops: seq<Operation<K, V>>, key: K)
    requires AvoidsKey(ops, key) && ops != []
    ensures var front, op := ops[..|ops| - 1], ops[|ops| - 1];
      && AvoidsKey(front, key) && !op.Clear? && op.key != key
      && UsedKeys(ops) == UsedKeys(front) + {op.key}
      && InsertedKeys(ops) == InsertedKeys(front) + if op.Insert? then {op.key} else {}
  {
    var front, op := ops[..|ops| - 1], ops[|ops| - 1];
    assert ops == front + [op];
    forall i | 0 <= i < |ops|
      ensures ops[i].key in UsedKeys(front) + {op.key}
      ensures ops[i].Insert? ==> ops[i].key in InsertedKeys(front) + if op.Insert? then {op.key} else {}
    {
      if i < |front| {
        assert front[i] == ops[i];
      }
    }
    forall i | 0 <= i < |front|
      ensures front[i].key in UsedKeys(ops)
      ensures front[i].Insert? ==> front[i].key in InsertedKeys(ops)
    {
      assert ops[i] == front[i];
    }
  }

  lemma TouchedStands<K, V>(list: seq<(K, V)>, capacity: nat, touch: Operation<K, V>)
    requires KeysAreDistinct(list) && |list| <= capacity && capacity > 0 && !touch.Clear?
    requires touch.Get? ==> Found(list, touch.key).Some?
    ensures var value := if touch.Get? then Found(list, touch.key).value else touch.value;
      IsKept(After(list, capacity, touch), capacity, touch.key, value, {}, {})
  {
    var after := After(list, capacity, touch);
    var value := if touch.Get? then Found(list, touch.key).value else touch.value;
    if touch.Get? {
      GetForgetsNothing(list, touch.key, touch.key);
    } else {
      InsertForgetsTheOldest(list, capacity, touch.key, touch.value, touch.key);
    }
    assert KeysBehind(after, |after| - 1) == {};
    assert after[|after| - 1] == (touch.key, value);
    assert Stands(after, capacity, touch.key, value, {}, {}, |after| - 1);
    hide KeysAreDistinct, KeysBehind;
  }

  /** An entry just looked up or inserted is found as long as fewer other keys are
      used than the cache holds, and no longer once as many were inserted. */
  lemma RecentIsKept<K, V>(list: seq<(K, V)>, capacity: nat, touch: Operation<K, V>, ops: seq<Operation<K, V>>)
    requires KeysAreDistinct(list) && |list| <= capacity && capacity > 0 && !touch.Clear? && AvoidsKey(ops, touch.key)
    requires touch.Get? ==> Found(list, touch.key).Some?
    ensures var value := if touch.Get? then Found(list, touch.key).value else touch.value;
      var found := Found(AfterAll(After(list, capacity, touch), capacity, ops), touch.key);
      && (found == Some(value) || found.None?)
      && (|UsedKeys(ops)| < capacity ==> found == Some(value))
      && (|InsertedKeys(ops)| >= capacity ==> found.None?)
  {
    hide After, AfterAll, AvoidsKey, UsedKeys, InsertedKeys, KeysAreDistinct, KeysBehind;
    var key := touch.key;
    var value := if touch.Get? then Found(list, key).value else touch.value;
    TouchedStands(list, capacity, touch);
    KeptOverRun(After(list, capacity, touch), capacity, key, value, ops);
    var final := AfterAll(After(list, capacity, touch), capacity, ops);
    if !IsGone(final, capacity, key, UsedKeys(ops)) {
      var p: nat :| Stands(final, capacity, key, value, UsedKeys(ops), InsertedKeys(ops), p);
      FoundAt(final, p);
      CountBehind(final, p);
      SubsetIsSmaller(InsertedKeys(ops), KeysBehind(final, p));
    }
  }
}
