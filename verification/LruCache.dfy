// The bounded cache of search pages and thread details
// (crates/notm-ui/src/cache.rs): entries carry the stamp of their last use, and
// the counter that issues stamps is rebased when it reaches the end of u64.
module LruCache {
  import opened MailText
  import opened OrderedSets

  const MAX_STAMP: nat := 0xFFFF_FFFF_FFFF_FFFF

  datatype CacheEntry<V> = CacheEntry(value: V, lastUsed: nat)

  // ---- The recency list: least recently used first

  function Position<K(==), V>(list: seq<(K, V)>, key: K): (p: Option<nat>)
    ensures p.Some? ==> p.value < |list| && list[p.value].0 == key
    ensures p.None? ==> forall i | 0 <= i < |list| :: list[i].0 != key
  {
    if list == [] then None
    else if list[|list| - 1].0 == key then Some(|list| - 1)
    else Position(list[..|list| - 1], key)
  }

  function Found<K(==), V>(list: seq<(K, V)>, key: K): Option<V> {
    var p := Position(list, key);
    if p.Some? then Some(list[p.value].1) else None
  }

  function Moved<K, V>(list: seq<(K, V)>, p: nat, value: V): seq<(K, V)>
    requires p < |list|
  {
    list[..p] + list[p + 1..] + [(list[p].0, value)]
  }

  /** A hit becomes the most recent entry. */
  function AfterGet<K(==), V>(list: seq<(K, V)>, key: K): seq<(K, V)> {
    var p := Position(list, key);
    if p.Some? then Moved(list, p.value, list[p.value].1) else list
  }

  /** A full list makes room by dropping its oldest entry. */
  function AfterInsert<K(==), V>(list: seq<(K, V)>, capacity: nat, key: K, value: V): seq<(K, V)> {
    var p := Position(list, key);
    if p.Some? then Moved(list, p.value, value)
    else (if |list| == capacity && list != [] then list[1..] else list) + [(key, value)]
  }

  predicate KeysAreDistinct<K(==), V>(list: seq<(K, V)>) {
    forall i, j | 0 <= i < j < |list| :: list[i].0 != list[j].0
  }

  lemma PairsDiffer<K, V>(list: seq<(K, V)>, i: nat, j: nat)
    requires KeysAreDistinct(list) && i < |list| && j < |list| && i != j
    ensures list[i].0 != list[j].0
  {
    var a, b := if i < j then i else j, if i < j then j else i;
    assert list[a].0 != list[b].0;
  }

  lemma FoundAt<K, V>(list: seq<(K, V)>, i: nat)
    requires KeysAreDistinct(list) && i < |list|
    ensures Position(list, list[i].0) == Some(i)
  {
    var p := Position(list, list[i].0);
    if p.Some? && p.value != i {
      PairsDiffer(list, p.value, i);
    }
  }

  lemma MovedFinds<K, V>(list: seq<(K, V)>, p: nat, value: V, other: K)
    requires KeysAreDistinct(list) && p < |list|
    ensures var after := Moved(list, p, value);
      KeysAreDistinct(after) && Found(after, other) == if other == list[p].0 then Some(value) else Found(list, other)
  {
    var after := Moved(list, p, value);
    forall i, j | 0 <= i < j < |list|
      ensures after[i].0 != after[j].0
    {
      PairsDiffer(list, if i < p then i else i + 1, if j < p then j else if j < |list| - 1 then j + 1 else p);
    }
    FoundAt(after, |list| - 1);
    if Found(list, other).Some? && other != list[p].0 {
      var q := Position(list, other).value;
      FoundAt(after, if q < p then q else q - 1);
    }
  }

  lemma PushedFinds<K, V>(list: seq<(K, V)>, key: K, value: V, other: K)
    requires KeysAreDistinct(list) && Found(list, key).None?
    ensures var after := list + [(key, value)];
      KeysAreDistinct(after) && Found(after, other) == if other == key then Some(value) else Found(list, other)
  {
    var after := list + [(key, value)];
    FoundAt(after, |list|);
    if Found(list, other).Some? {
      FoundAt(after, Position(list, other).value);
    }
  }

  lemma DroppedFinds<K, V>(list: seq<(K, V)>, other: K)
    requires KeysAreDistinct(list) && list != []
    ensures KeysAreDistinct(list[1..])
    ensures Found(list[1..], other) == if other == list[0].0 then None else Found(list, other)
  {
    FoundAt(list, 0);
    if Found(list, other).Some? && other != list[0].0 {
      FoundAt(list[1..], Position(list, other).value - 1);
    }
  }

  /** An insertion is seen, and forgets nothing but the oldest entry of a full list. */
  lemma InsertForgetsTheOldest<K, V>(list: seq<(K, V)>, capacity: nat, key: K, value: V, other: K)
    requires KeysAreDistinct(list) && |list| <= capacity && capacity > 0
    ensures var after := AfterInsert(list, capacity, key, value);
      && KeysAreDistinct(after) && |after| <= capacity
      && Found(after, other) ==
           if other == key then Some(value)
           else if Found(list, key).None? && |list| == capacity && other == list[0].0 then None
           else Found(list, other)
  {
    var p := Position(list, key);
    if p.Some? {
      MovedFinds(list, p.value, value, other);
    } else if |list| < capacity {
      PushedFinds(list, key, value, other);
    } else {
      DroppedFinds(list, other);
      DroppedFinds(list, key);
      PushedFinds(list[1..], key, value, other);
    }
    hide KeysAreDistinct, Position;
  }

  /** A lookup changes no answer. */
  lemma GetForgetsNothing<K, V>(list: seq<(K, V)>, key: K, other: K)
    requires KeysAreDistinct(list)
    ensures KeysAreDistinct(AfterGet(list, key)) && Found(AfterGet(list, key), other) == Found(list, other)
  {
    var p := Position(list, key);
    if p.Some? {
      MovedFinds(list, p.value, list[p.value].1, other);
    }
  }

  datatype Operation<K, V> = Get(key: K) | Insert(key: K, value: V) | Clear

  /** What a recency list answers and becomes. */
  function Answer<K(==), V>(list: seq<(K, V)>, op: Operation<K, V>): Option<V> {
    if op.Clear? then None else Found(list, op.key)
  }

  function After<K(==), V>(list: seq<(K, V)>, capacity: nat, op: Operation<K, V>): seq<(K, V)> {
    match op
    case Get(key) => AfterGet(list, key)
    case Insert(key, value) => AfterInsert(list, capacity, key, value)
    case Clear => []
  }

  function AfterAll<K(==), V>(list: seq<(K, V)>, capacity: nat, ops: seq<Operation<K, V>>): seq<(K, V)> {
    if ops == [] then list
    else After(AfterAll(list, capacity, ops[..|ops| - 1]), capacity, ops[|ops| - 1])
  }

  function Answers<K(==), V>(list: seq<(K, V)>, capacity: nat, ops: seq<Operation<K, V>>): seq<Option<V>> {
    if ops == [] then []
    else
      var k := |ops| - 1;
      Answers(list, capacity, ops[..k]) + [Answer(AfterAll(list, capacity, ops[..k]), ops[k])]
  }

  // ---- Stamps

  ghost predicate Holds<K(!new), V>(entries: map<K, CacheEntry<V>>, list: seq<(K, V)>, recency: nat) {
    forall i | 0 <= i < |list| ::
      list[i].0 in entries && entries[list[i].0].value == list[i].1 && 0 < entries[list[i].0].lastUsed <= recency
  }

  ghost predicate InOrder<K(!new), V>(entries: map<K, CacheEntry<V>>, list: seq<(K, V)>) {
    && (forall i | 0 <= i < |list| :: list[i].0 in entries)
    && (forall i, j | 0 <= i < j < |list| :: entries[list[i].0].lastUsed < entries[list[j].0].lastUsed)
  }

  ghost predicate IsComplete<K(!new), V>(entries: map<K, CacheEntry<V>>, list: seq<(K, V)>) {
    |entries| == |list| && forall key | key in entries :: Position(list, key).Some?
  }

  /** The entries are those of the list, and their stamps are in its order. */
  ghost predicate Represents<K(!new), V>(entries: map<K, CacheEntry<V>>, list: seq<(K, V)>, recency: nat) {
    Holds(entries, list, recency) && InOrder(entries, list) && IsComplete(entries, list)
  }

  lemma FoundIsStored<K(!new), V>(entries: map<K, CacheEntry<V>>, list: seq<(K, V)>, recency: nat, key: K)
    requires Represents(entries, list, recency)
    ensures Found(list, key) == if key in entries then Some(entries[key].value) else None
  {
    hide InOrder;
  }

  /** Stamps in order are stamps of different keys. */
  lemma KeysDiffer<K(!new), V>(entries: map<K, CacheEntry<V>>, list: seq<(K, V)>, i: nat, j: nat)
    requires InOrder(entries, list) && i < |list| && j < |list| && i != j
    ensures list[i].0 != list[j].0
  {
    var a, b := if i < j then i else j, if i < j then j else i;
    assert entries[list[a].0].lastUsed < entries[list[b].0].lastUsed;
  }

  lemma MovedAt<K, V>(list: seq<(K, V)>, p: nat, value: V, i: nat)
    requires p < |list| && i < |list|
    ensures |Moved(list, p, value)| == |list|
    ensures Moved(list, p, value)[i] ==
      if i < p then list[i] else if i < |list| - 1 then list[i + 1] else (list[p].0, value)
  {
  }

  lemma MovedIsComplete<K(!new), V>(entries: map<K, CacheEntry<V>>, list: seq<(K, V)>, p: nat, value: V,
                                     entry: CacheEntry<V>)
    requires IsComplete(entries, list) && p < |list| && list[p].0 in entries
    ensures IsComplete(entries[list[p].0 := entry], Moved(list, p, value))
  {
    hide Moved;
    var moved, stamped := Moved(list, p, value), entries[list[p].0 := entry];
    assert stamped.Keys == entries.Keys;
    MovedAt(list, p, value, p);
    forall k | k in stamped
      ensures Position(moved, k).Some?
    {
      var q := Position(list, k).value;
      var at := if q < p then q else if q > p then q - 1 else |list| - 1;
      MovedAt(list, p, value, at);
      assert moved[at].0 == k;
    }
  }

  lemma MovedIsInOrder<K(!new), V>(entries: map<K, CacheEntry<V>>, list: seq<(K, V)>, recency: nat, p: nat, value: V)
    requires Holds(entries, list, recency) && InOrder(entries, list) && p < |list|
    ensures var stamped := entries[list[p].0 := CacheEntry(value, recency + 1)];
      Holds(stamped, Moved(list, p, value), recency + 1) && InOrder(stamped, Moved(list, p, value))
  {
    hide Moved;
    var moved, stamped := Moved(list, p, value), entries[list[p].0 := CacheEntry(value, recency + 1)];
    MovedAt(list, p, value, p);
    forall i | 0 <= i < |list|
      ensures moved[i].0 in stamped && stamped[moved[i].0].value == moved[i].1
      ensures stamped[moved[i].0].lastUsed ==
        if i == |list| - 1 then recency + 1 else entries[list[if i < p then i else i + 1].0].lastUsed
    {
      MovedAt(list, p, value, i);
      if i < |list| - 1 {
        KeysDiffer(entries, list, p, if i < p then i else i + 1);
      }
    }
  }

  /** Stamping an entry with the next stamp moves it to the end. */
  lemma StampingMoves<K(!new), V>(entries: map<K, CacheEntry<V>>, list: seq<(K, V)>, recency: nat, key: K, value: V)
    requires Represents(entries, list, recency) && key in entries
    ensures Position(list, key).Some?
    ensures Represents(entries[key := CacheEntry(value, recency + 1)],
                       Moved(list, Position(list, key).value, value), recency + 1)
  {
    assert Position(list, key).Some?;
    hide Holds, InOrder, IsComplete, Moved;
    var p := Position(list, key).value;
    MovedIsComplete(entries, list, p, value, CacheEntry(value, recency + 1));
    MovedIsInOrder(entries, list, recency, p, value);
  }

  lemma AppendedIsComplete<K(!new), V>(entries: map<K, CacheEntry<V>>, list: seq<(K, V)>, key: K, value: V,
                                       entry: CacheEntry<V>)
    requires IsComplete(entries, list) && key !in entries
    ensures IsComplete(entries[key := entry], list + [(key, value)])
  {
    var longer, stamped := list + [(key, value)], entries[key := entry];
    assert stamped.Keys == entries.Keys + {key};
    forall k | k in stamped
      ensures Position(longer, k).Some?
    {
      assert longer[if k == key then |list| else Position(list, k).value].0 == k;
    }
  }

  lemma AppendedIsInOrder<K(!new), V>(entries: map<K, CacheEntry<V>>, list: seq<(K, V)>, recency: nat, key: K, value: V)
    requires Holds(entries, list, recency) && InOrder(entries, list) && key !in entries
    ensures var stamped := entries[key := CacheEntry(value, recency + 1)];
      Holds(stamped, list + [(key, value)], recency + 1) && InOrder(stamped, list + [(key, value)])
  {
    var longer, stamped := list + [(key, value)], entries[key := CacheEntry(value, recency + 1)];
    forall i | 0 <= i <= |list|
      ensures longer[i].0 in stamped && stamped[longer[i].0].value == longer[i].1
      ensures stamped[longer[i].0].lastUsed == if i == |list| then recency + 1 else entries[list[i].0].lastUsed
    {
    }
  }

  lemma AppendingAdds<K(!new), V>(entries: map<K, CacheEntry<V>>, list: seq<(K, V)>, recency: nat, key: K, value: V)
    requires Represents(entries, list, recency) && key !in entries
    ensures Represents(entries[key := CacheEntry(value, recency + 1)], list + [(key, value)], recency + 1)
  {
    hide Holds, InOrder, IsComplete;
    AppendedIsComplete(entries, list, key, value, CacheEntry(value, recency + 1));
    AppendedIsInOrder(entries, list, recency, key, value);
  }

  /** The least stamp belongs to the head of the list, and to it alone. */
  lemma LeastIsFirst<K(!new), V>(entries: map<K, CacheEntry<V>>, list: seq<(K, V)>, recency: nat, key: K)
    requires Represents(entries, list, recency) && key in entries
    ensures list != [] && list[0].0 in entries && entries[list[0].0].lastUsed <= entries[key].lastUsed
    ensures entries[list[0].0].lastUsed == entries[key].lastUsed <==> key == list[0].0
  {
    hide Holds;
    var i := Position(list, key).value;
    assert i > 0 ==> entries[list[0].0].lastUsed < entries[list[i].0].lastUsed;
  }

  lemma DroppedIsComplete<K(!new), V>(entries: map<K, CacheEntry<V>>, list: seq<(K, V)>)
    requires IsComplete(entries, list) && list != [] && list[0].0 in entries
    ensures IsComplete(entries - {list[0].0}, list[1..])
  {
    var rest, tail := entries - {list[0].0}, list[1..];
    assert entries.Keys == rest.Keys + {list[0].0};
    forall key | key in rest
      ensures Position(tail, key).Some?
    {
      assert Position(list, key).Some?;
      assert tail[Position(list, key).value - 1].0 == key;
    }
  }

  lemma DroppedIsInOrder<K(!new), V>(entries: map<K, CacheEntry<V>>, list: seq<(K, V)>, recency: nat)
    requires Holds(entries, list, recency) && InOrder(entries, list) && list != []
    ensures Holds(entries - {list[0].0}, list[1..], recency) && InOrder(entries - {list[0].0}, list[1..])
  {
    var rest, tail := entries - {list[0].0}, list[1..];
    forall i | 0 <= i < |tail|
      ensures tail[i] == list[i + 1] && tail[i].0 in rest && rest[tail[i].0] == entries[list[i + 1].0]
    {
      KeysDiffer(entries, list, 0, i + 1);
    }
  }

  lemma DroppingFirst<K(!new), V>(entries: map<K, CacheEntry<V>>, list: seq<(K, V)>, recency: nat)
    requires Represents(entries, list, recency) && list != []
    ensures list[0].0 in entries && Represents(entries - {list[0].0}, list[1..], recency)
  {
    assert list[0].0 in entries;
    hide Holds, InOrder, IsComplete;
    DroppedIsComplete(entries, list);
    DroppedIsInOrder(entries, list, recency);
  }

  // ---- Rebasing

  function IndexOf(stamps: seq<nat>, stamp: nat): (i: nat)
    requires stamp in stamps
    ensures i < |stamps| && stamps[i] == stamp
  {
    if stamps[0] == stamp then 0 else 1 + IndexOf(stamps[1..], stamp)
  }

  ghost predicate AreStampsOf<K(!new), V>(stamps: seq<nat>, entries: map<K, CacheEntry<V>>) {
    && Increasing(stamps)
    && (forall key | key in entries :: entries[key].lastUsed in stamps)
    && (forall s | s in stamps :: exists key | key in entries :: entries[key].lastUsed == s)
  }

  /** Ranks by place among the sorted stamps. */
  function Ranked<K, V>(entries: map<K, CacheEntry<V>>, stamps: seq<nat>): map<K, CacheEntry<V>>
    requires forall key | key in entries :: entries[key].lastUsed in stamps
  {
    map key | key in entries :: CacheEntry(entries[key].value, IndexOf(stamps, entries[key].lastUsed) + 1)
  }

  lemma ListedAreStamps<K(!new), V>(entries: map<K, CacheEntry<V>>, list: seq<(K, V)>, listed: seq<nat>)
    requires InOrder(entries, list) && IsComplete(entries, list)
    requires |listed| == |list| && forall i | 0 <= i < |list| :: listed[i] == entries[list[i].0].lastUsed
    ensures AreStampsOf(listed, entries)
  {
    forall key | key in entries
      ensures entries[key].lastUsed in listed
    {
      assert Position(list, key).Some?;
      assert listed[Position(list, key).value] == entries[key].lastUsed;
    }
    forall s | s in listed
      ensures exists key | key in entries :: entries[key].lastUsed == s
    {
      var i :| 0 <= i < |listed| && listed[i] == s;
      assert list[i].0 in entries;
    }
  }

  lemma StampsAreTheList<K(!new), V>(entries: map<K, CacheEntry<V>>, list: seq<(K, V)>, stamps: seq<nat>)
    requires InOrder(entries, list) && IsComplete(entries, list) && AreStampsOf(stamps, entries)
    ensures |stamps| == |list|
    ensures forall i | 0 <= i < |list| :: list[i].0 in entries && stamps[i] == entries[list[i].0].lastUsed
  {
    var listed := seq(|list|, i requires 0 <= i < |list| && list[i].0 in entries => entries[list[i].0].lastUsed);
    hide IsComplete, AreStampsOf;
    ListedAreStamps(entries, list, listed);
    StampsAreUnique(stamps, listed, entries);
  }

  lemma StampsAreUnique<K(!new), V>(a: seq<nat>, b: seq<nat>, entries: map<K, CacheEntry<V>>)
    requires AreStampsOf(a, entries) && AreStampsOf(b, entries)
    ensures a == b
  {
    hide Increasing;
    SameAreEqual(a, b);
  }

  lemma StampsDiffer(stamps: seq<nat>, i: nat, j: nat)
    requires Increasing(stamps) && i < |stamps| && j < |stamps| && i != j
    ensures stamps[i] != stamps[j]
  {
    var a, b := if i < j then i else j, if i < j then j else i;
    assert stamps[a] < stamps[b];
  }

  lemma IndexIsPlace(stamps: seq<nat>, i: nat)
    requires Increasing(stamps) && i < |stamps|
    ensures IndexOf(stamps, stamps[i]) == i
  {
    if IndexOf(stamps, stamps[i]) != i {
      StampsDiffer(stamps, IndexOf(stamps, stamps[i]), i);
    }
  }

  lemma RankIsPlace<K(!new), V>(entries: map<K, CacheEntry<V>>, list: seq<(K, V)>, stamps: seq<nat>, i: nat)
    requires InOrder(entries, list) && IsComplete(entries, list) && AreStampsOf(stamps, entries) && i < |list|
    ensures list[i].0 in entries && Ranked(entries, stamps)[list[i].0] == CacheEntry(entries[list[i].0].value, i + 1)
  {
    StampsAreTheList(entries, list, stamps);
    IndexIsPlace(stamps, i);
    hide InOrder, IsComplete, IndexOf;
  }

  lemma RankedIsComplete<K(!new), V>(entries: map<K, CacheEntry<V>>, list: seq<(K, V)>, stamps: seq<nat>)
    requires IsComplete(entries, list) && forall key | key in entries :: entries[key].lastUsed in stamps
    ensures IsComplete(Ranked(entries, stamps), list)
  {
    assert Ranked(entries, stamps).Keys == entries.Keys;
  }

  lemma RanksAreInOrder<K(!new), V>(entries: map<K, CacheEntry<V>>, list: seq<(K, V)>, ranked: map<K, CacheEntry<V>>)
    requires forall i | 0 <= i < |list| :: list[i].0 in ranked && ranked[list[i].0] == CacheEntry(list[i].1, i + 1)
    ensures Holds(ranked, list, |list|) && InOrder(ranked, list)
  {
  }

  /** The ranks keep the order, and their count is the greatest of them. */
  lemma RankingKeepsOrder<K(!new), V>(entries: map<K, CacheEntry<V>>, list: seq<(K, V)>, recency: nat, stamps: seq<nat>)
    requires Represents(entries, list, recency) && AreStampsOf(stamps, entries)
    ensures |stamps| == |list| && Represents(Ranked(entries, stamps), list, |stamps|)
  {
    hide InOrder, IsComplete, Ranked;
    StampsAreTheList(entries, list, stamps);
    RankedIsComplete(entries, list, stamps);
    var ranked := Ranked(entries, stamps);
    forall i | 0 <= i < |list|
      ensures list[i].0 in ranked && ranked[list[i].0] == CacheEntry(list[i].1, i + 1)
    {
      RankIsPlace(entries, list, stamps, i);
      KeysOfRanked(entries, stamps, list[i].0);
    }
    RanksAreInOrder(entries, list, ranked);
  }

  lemma KeysOfRanked<K(!new), V>(entries: map<K, CacheEntry<V>>, stamps: seq<nat>, key: K)
    requires forall k | k in entries :: entries[k].lastUsed in stamps
    ensures key in Ranked(entries, stamps) <==> key in entries
  {
  }

  class BoundedLruCache<K(==, !new), V> {
    const capacity: nat
    var entries: map<K, CacheEntry<V>>
    var recency: nat
    /** The recency list that the stamps stand for. */
    ghost var recent: seq<(K, V)>

    ghost predicate Valid()
      reads this
    {
      && 0 < capacity < MAX_STAMP && recency <= MAX_STAMP && |entries| <= capacity
      && Represents(entries, recent, recency)
    }

    constructor (capacity: nat)
      requires 0 < capacity < MAX_STAMP
      ensures Valid() && this.capacity == capacity && recent == []
    {
      this.capacity, entries, recency, recent := capacity, map[], 0, [];
    }

    method SortedStamps() returns (stamps: seq<nat>)
      ensures AreStampsOf(stamps, entries)
    {
      stamps := [];
      var left := entries.Keys;
      while left != {}
        invariant left <= entries.Keys && Increasing(stamps)
        invariant forall key | key in entries && key !in left :: entries[key].lastUsed in stamps
        invariant forall s | s in stamps :: exists key | key in entries :: entries[key].lastUsed == s
        decreases |left|
      {
        var key :| key in left;
        left := left - {key};
        InsertedHolds(stamps, entries[key].lastUsed);
        hide Increasing, Inserted;
        stamps := Inserted(stamps, entries[key].lastUsed);
      }
    }

    /** Stamps become ranks: the order stays, and the counter has room again. */
    method RebaseRecency()
      requires Valid()
      modifies this`entries, this`recency
      ensures Valid() && recency == |recent| <= capacity
    {
      hide Represents, AreStampsOf, Ranked, IsComplete;
      var stamps := SortedStamps();
      RankingKeepsOrder(entries, recent, recency, stamps);
      StampsCover(stamps, entries);
      SizeIsLength(entries, recent, recency);
      var ranked := Ranked(entries, stamps);
      SizeIsLength(ranked, recent, |stamps|);
      entries := ranked;
      recency := |stamps|;
    }

    method NextRecency() returns (next: nat)
      requires Valid()
      modifies this`entries, this`recency
      ensures next == recency && 0 < next <= MAX_STAMP && |entries| == |old(entries)|
      ensures entries.Keys == old(entries).Keys
      ensures Represents(entries, recent, next - 1)
    {
      hide Represents;
      if recency == MAX_STAMP {
        RebaseRecency();
        KeysAreListed(old(entries), entries, recent, old(recency), recency);
      }
      recency := recency + 1;
      next := recency;
    }

    method Get(key: K) returns (value: Option<V>)
      requires Valid()
      modifies this
      ensures Valid() && value == Found(old(recent), key) && recent == AfterGet(old(recent), key)
      ensures value.None? ==> recency == old(recency)
    {
      hide Represents;
      FoundIsStored(entries, recent, recency, key);
      if key !in entries {
        return None;
      }
      var stamp := NextRecency();
      FoundIsStored(entries, recent, stamp - 1, key);
      StampingMoves(entries, recent, stamp - 1, key, entries[key].value);
      value := Some(entries[key].value);
      entries := entries[key := CacheEntry(entries[key].value, stamp)];
      recent := AfterGet(recent, key);
    }

    method EvictLru(stamp: nat)
      requires entries != map[] && Represents(entries, recent, stamp)
      modifies this`entries, this`recent
      ensures recent == old(recent)[1..] && Represents(entries, recent, stamp)
      ensures |old(recent)| > 0 && entries == old(entries) - {old(recent)[0].0} && |entries| + 1 == |old(entries)|
    {
      hide Represents;
      var first :| first in entries;
      var oldest := entries[first].lastUsed;
      LeastIsFirst(entries, recent, stamp, first);
      var left := entries.Keys - {first};
      while left != {}
        invariant left <= entries.Keys
        invariant exists key | key in entries && key !in left :: entries[key].lastUsed == oldest
        invariant forall key | key in entries && key !in left :: oldest <= entries[key].lastUsed
        decreases |left|
      {
        var key :| key in left;
        left := left - {key};
        if entries[key].lastUsed < oldest {
          oldest := entries[key].lastUsed;
        }
      }
      forall key | key in entries
        ensures entries[key].lastUsed == oldest <==> key == recent[0].0
      {
        LeastIsFirst(entries, recent, stamp, key);
        ghost var least :| least in entries && entries[least].lastUsed == oldest;
        LeastIsFirst(entries, recent, stamp, least);
      }
      DroppingFirst(entries, recent, stamp);
      var kept := map key | key in entries && entries[key].lastUsed != oldest :: entries[key];
      assert kept == entries - {recent[0].0};
      assert entries.Keys == kept.Keys + {recent[0].0};
      entries := kept;
      recent := recent[1..];
    }

    method Insert(key: K, value: V) returns (replaced: Option<V>)
      requires Valid()
      modifies this
      ensures Valid() && replaced == Found(old(recent), key) && recent == AfterInsert(old(recent), capacity, key, value)
    {
      hide Represents;
      var stamp := NextRecency();
      FoundIsStored(entries, recent, stamp - 1, key);
      SizeIsLength(entries, recent, stamp - 1);
      if key in entries {
        StampingMoves(entries, recent, stamp - 1, key, value);
        replaced := Some(entries[key].value);
        entries := entries[key := CacheEntry(value, stamp)];
        recent := AfterInsert(recent, capacity, key, value);
        return;
      }
      if |entries| == capacity {
        EvictLru(stamp - 1);
      }
      AppendingAdds(entries, recent, stamp - 1, key, value);
      entries := entries[key := CacheEntry(value, stamp)];
      recent := recent + [(key, value)];
      replaced := None;
    }

    method Clear()
      requires Valid()
      modifies this
      ensures Valid() && recent == [] && recency == 0
    {
      entries, recency, recent := map[], 0, [];
    }
  }

  method Perform<K(==, !new), V>(cache: BoundedLruCache<K, V>, op: Operation<K, V>) returns (answer: Option<V>)
    requires cache.Valid()
    modifies cache
    ensures cache.Valid() && answer == Answer(old(cache.recent), op)
    ensures cache.recent == After(old(cache.recent), cache.capacity, op)
  {
    hide Represents, Position, AfterGet, AfterInsert, Found;
    answer := None;
    match op {
      case Get(key) => answer := cache.Get(key);
      case Insert(key, value) => answer := cache.Insert(key, value);
      case Clear => cache.Clear();
    }
  }

  lemma AfterAllUnfolds<K, V>(list: seq<(K, V)>, capacity: nat, ops: seq<Operation<K, V>>, i: nat)
    requires i < |ops|
    ensures AfterAll(list, capacity, ops[..i + 1]) == After(AfterAll(list, capacity, ops[..i]), capacity, ops[i])
    ensures Answers(list, capacity, ops[..i + 1]) ==
      Answers(list, capacity, ops[..i]) + [Answer(AfterAll(list, capacity, ops[..i]), ops[i])]
  {
    assert ops[..i + 1][..i] == ops[..i];
    hide After, Answer;
  }

  lemma NothingReplayed<K, V>(list: seq<(K, V)>, capacity: nat, ops: seq<Operation<K, V>>)
    ensures AfterAll(list, capacity, ops[..0]) == list && Answers(list, capacity, ops[..0]) == []
  {
  }

  /** Over any run the cache answers as the recency list does, overflow or not. */
  method Replay<K(==, !new), V>(cache: BoundedLruCache<K, V>, ops: seq<Operation<K, V>>)
    returns (answers: seq<Option<V>>)
    requires cache.Valid()
    modifies cache
    ensures cache.Valid() && cache.recent == AfterAll(old(cache.recent), cache.capacity, ops)
    ensures answers == Answers(old(cache.recent), cache.capacity, ops)
  {
    hide *;
    answers := [];
    NothingReplayed(cache.recent, cache.capacity, ops);
    for i := 0 to |ops|
      invariant cache.Valid() && cache.recent == AfterAll(old(cache.recent), cache.capacity, ops[..i])
      invariant answers == Answers(old(cache.recent), cache.capacity, ops[..i])
    {
      AfterAllUnfolds(old(cache.recent), cache.capacity, ops, i);
      var answer := Perform(cache, ops[i]);
      answers := answers + [answer];
    }
    assert ops[..|ops|] == ops;
  }

  lemma SizeIsLength<K(!new), V>(entries: map<K, CacheEntry<V>>, list: seq<(K, V)>, recency: nat)
    requires Represents(entries, list, recency)
    ensures |entries| == |list|
  {
  }

  lemma StampsCover<K(!new), V>(stamps: seq<nat>, entries: map<K, CacheEntry<V>>)
    requires AreStampsOf(stamps, entries)
    ensures forall key | key in entries :: entries[key].lastUsed in stamps
  {
  }

  lemma KeysAreListed<K(!new), V>(a: map<K, CacheEntry<V>>, b: map<K, CacheEntry<V>>, list: seq<(K, V)>, before: nat,
                                   after: nat)
    requires Represents(a, list, before) && Represents(b, list, after)
    ensures a.Keys == b.Keys && |a| == |b|
  {
    forall key
      ensures key in a <==> key in b
    {
      assert key in a ==> Position(list, key).Some?;
      assert key in b ==> Position(list, key).Some?;
    }
  }
}
