/** LRU feature cache (src/embedding/feature_cache.cpp): a recency list of items plus an index into it. */
module FeatureCache {

  newtype Key = x: int | 0 <= x < 0x1_0000_0000_0000_0000

  // ---- The abstract cache: entries, most recently used first ----

  type Entries<V> = seq<(Key, V)>

  ghost predicate HasKey<V>(c: seq<(Key, V)>, key: Key) {
    exists i :: 0 <= i < |c| && c[i].0 == key
  }

  ghost predicate DistinctKeys<V>(c: seq<(Key, V)>) {
    forall i, j :: 0 <= i < j < |c| ==> c[i].0 != c[j].0
  }

  ghost function RemoveKey<V>(c: seq<(Key, V)>, key: Key): seq<(Key, V)> {
    if c == [] then []
    else if c[0].0 == key then RemoveKey(c[1..], key)
    else [c[0]] + RemoveKey(c[1..], key)
  }

  ghost function Find<V>(c: seq<(Key, V)>, key: Key): (v: V)
    requires HasKey(c, key)
  {
    if c[0].0 == key then c[0].1 else Find(c[1..], key)
  }

  ghost function AfterGet<V>(c: seq<(Key, V)>, key: Key): seq<(Key, V)> {
    if HasKey(c, key) then [(key, Find(c, key))] + RemoveKey(c, key) else c
  }

  ghost function AfterPut<V>(c: seq<(Key, V)>, key: Key, value: V, max: nat): seq<(Key, V)> {
    if HasKey(c, key) then [(key, value)] + RemoveKey(c, key)
    else if max == 0 then c
    else [(key, value)] + if |c| >= max && c != [] then c[..|c| - 1] else c
  }

  // ---- The two linked structures ----

  class LruItem<V> {
    const key: Key
    var value: V

    constructor (key: Key, value: V)
      ensures this.key == key && this.value == value
    {
      this.key, this.value := key, value;
    }
  }

  ghost function View<V>(items: seq<LruItem<V>>): Entries<V>
    reads items
  {
    seq(|items|, i requires 0 <= i < |items| reads items => (items[i].key, items[i].value))
  }

  lemma SpliceView<V>(items: seq<LruItem<V>>, at: nat)
    requires at < |items| && forall i, j :: 0 <= i < j < |items| ==> items[i].key != items[j].key
    ensures View([items[at]] + items[..at] + items[at + 1..])
            == [(items[at].key, items[at].value)] + RemoveKey(View(items), items[at].key)
    ensures forall it :: it in [items[at]] + items[..at] + items[at + 1..] <==> it in items
  {
    RemoveKeyAt(View(items), at);
    assert items == items[..at] + [items[at]] + items[at + 1..];
  }

  /** The index finds exactly the items of the list, each under its own key. */
  ghost predicate Indexes<V>(index: map<Key, LruItem<V>>, items: seq<LruItem<V>>) {
    && (forall it :: it in items ==> it.key in index && index[it.key] == it)
    && (forall k :: k in index ==> index[k] in items && index[k].key == k)
  }

  lemma SpliceKeepsIndex<V>(items: seq<LruItem<V>>, index: map<Key, LruItem<V>>, at: nat)
    requires at < |items| && Indexes(index, items)
    ensures var moved := [items[at]] + items[..at] + items[at + 1..];
            Indexes(index, moved) && forall it :: it in moved <==> it in items
  {
    assert items == items[..at] + [items[at]] + items[at + 1..];
  }

  lemma SpliceKeepsKeys<V>(items: seq<LruItem<V>>, at: nat)
    requires at < |items| && forall i, j :: 0 <= i < j < |items| ==> items[i].key != items[j].key
    ensures var moved := [items[at]] + items[..at] + items[at + 1..];
            |moved| == |items| && forall i, j :: 0 <= i < j < |moved| ==> moved[i].key != moved[j].key
  {
  }

  class FeatureCache<V> {
    const maxEntries: nat
    var lru: seq<LruItem<V>>
    var index: map<Key, LruItem<V>>
    var hits: nat
    var misses: nat

    ghost predicate Valid()
      reads this
    {
      && |lru| <= maxEntries
      && (forall i, j :: 0 <= i < j < |lru| ==> lru[i].key != lru[j].key)
      && Indexes(index, lru)
    }

    ghost function Contents(): Entries<V>
      reads this, lru
    {
      View(lru)
    }

    constructor (maxEntries: nat)
      ensures Valid() && Contents() == [] && this.maxEntries == maxEntries
      ensures hits == 0 && misses == 0
    {
      this.maxEntries := maxEntries;
      lru, index, hits, misses := [], map[], 0, 0;
    }

    method Position(item: LruItem<V>) returns (at: nat)
      requires item in lru
      ensures at < |lru| && lru[at] == item
    {
      at := 0;
      while lru[at] != item
        invariant at < |lru| && item in lru[at..]
        decreases |lru| - at
      {
        assert lru[at..] == [lru[at]] + lru[at + 1..];
        at := at + 1;
      }
    }

    /** Splices the item to the front of the list. */
    method MoveToFront(item: LruItem<V>)
      requires Valid() && item in lru
      modifies this`lru
      ensures Valid() && forall it :: it in lru <==> it in old(lru)
      ensures Contents() == [(item.key, item.value)] + RemoveKey(old(Contents()), item.key)
    {
      var at := Position(item);
      SpliceView(lru, at);
      SpliceKeepsKeys(lru, at);
      SpliceKeepsIndex(lru, index, at);
      ghost var spliced := [item] + lru[..at] + lru[at + 1..];
      lru := [item] + lru[..at] + lru[at + 1..];
      assert lru == spliced;
    }

    method Get(key: Key) returns (item: LruItem?<V>)
      requires Valid()
      modifies this
      ensures Valid() && forall it :: it in lru <==> it in old(lru)
      ensures Contents() == AfterGet(old(Contents()), key)
      ensures item != null <==> HasKey(old(Contents()), key)
      ensures item != null ==> item.key == key && item.value == Find(old(Contents()), key)
      ensures hits == old(hits) + (if item != null then 1 else 0) && misses == old(misses) + (if item == null then 1 else 0)
    {
      IndexMirrorsList(key);
      if key !in index {
        misses := misses + 1;
        return null;
      }
      item := index[key];
      MoveToFront(item);
      hits := hits + 1;
    }

    lemma IndexMirrorsList(key: Key)
      requires Valid()
      ensures key in index <==> HasKey(Contents(), key)
      ensures key in index ==> Find(Contents(), key) == index[key].value
    {
      if key in index {
        var at :| 0 <= at < |lru| && lru[at] == index[key];
        assert Contents()[at].0 == key;
        FindAt(Contents(), at);
      }
    }

    method PutExisting(key: Key, value: V)
      requires Valid() && key in index
      modifies this, lru
      ensures Valid() && hits == old(hits) && misses == old(misses)
      ensures forall it :: it in lru ==> it in old(lru)
      ensures HasKey(old(Contents()), key) && Contents() == [(key, value)] + RemoveKey(old(Contents()), key)
    {
      ghost var before := Contents();
      var item := index[key];
      ghost var at :| 0 <= at < |lru| && lru[at] == item;
      assert before[at].0 == key;
      item.value := value;
      RemoveKeyIgnoresValue(before, Contents(), key);
      MoveToFront(item);
    }

    method EvictLast()
      requires Valid() && lru != []
      modifies this`lru, this`index
      ensures Valid() && lru == old(lru)[..|old(lru)| - 1] && index.Keys == old(index).Keys - {old(lru)[|old(lru)| - 1].key}
      ensures Contents() == old(Contents())[..|old(Contents())| - 1]
    {
      var last := lru[|lru| - 1];
      index := index - {last.key};
      lru := lru[..|lru| - 1];
    }

    method InsertFront(key: Key, value: V)
      requires Valid() && key !in index && |lru| < maxEntries
      modifies this`lru, this`index
      ensures Valid() && Contents() == [(key, value)] + old(Contents())
      ensures forall it :: it in lru ==> it in old(lru) || fresh(it)
    {
      ghost var before := Contents();
      var item := new LruItem(key, value);
      lru := [item] + lru;
      index := index[key := item];
      assert Contents() == [(key, value)] + before;
    }

    method Put(key: Key, value: V)
      requires Valid()
      modifies this, lru
      ensures Valid() && hits == old(hits) && misses == old(misses)
      ensures forall it :: it in lru ==> it in old(lru) || fresh(it)
      ensures Contents() == AfterPut(old(Contents()), key, value, maxEntries)
    {
      if key in index {
        PutExisting(key, value);
        return;
      }
      IndexMirrorsList(key);
      if |lru| >= maxEntries && maxEntries > 0 {
        EvictLast();
      } else if maxEntries == 0 {
        return;
      }
      InsertFront(key, value);
    }
  }

  lemma {:induction false} RemoveKeyAt<V>(c: seq<(Key, V)>, at: nat)
    requires at < |c| && DistinctKeys(c)
    ensures RemoveKey(c, c[at].0) == c[..at] + c[at + 1..]
  {
    if at == 0 {
      RemoveAbsent(c[1..], c[0].0);
    } else {
      RemoveKeyAt(c[1..], at - 1);
      assert c[..at] == [c[0]] + c[1..][..at - 1];
      assert c[at + 1..] == c[1..][at..];
    }
  }

  lemma {:induction false} RemoveAbsent<V>(c: seq<(Key, V)>, key: Key)
    requires forall i :: 0 <= i < |c| ==> c[i].0 != key
    ensures RemoveKey(c, key) == c
  {
    if c != [] {
      RemoveAbsent(c[1..], key);
    }
  }

  lemma {:induction false} FindAt<V>(c: seq<(Key, V)>, at: nat)
    requires at < |c| && DistinctKeys(c)
    ensures HasKey(c, c[at].0) && Find(c, c[at].0) == c[at].1
  {
    if at > 0 {
      assert c[0].0 != c[at].0;
      FindAt(c[1..], at - 1);
    }
  }

  lemma {:induction false} RemoveKeyIgnoresValue<V>(c: seq<(Key, V)>, d: seq<(Key, V)>, key: Key)
    requires |c| == |d| && forall i :: 0 <= i < |c| ==> c[i] == d[i] || (c[i].0 == d[i].0 == key)
    ensures RemoveKey(c, key) == RemoveKey(d, key)
  {
    if c != [] {
      RemoveKeyIgnoresValue(c[1..], d[1..], key);
    }
  }

  // ---- Whole runs ----

  datatype Op<V> = GetOp(key: Key) | PutOp(key: Key, value: V)

  ghost function Step<V>(c: seq<(Key, V)>, op: Op<V>, max: nat): seq<(Key, V)> {
    match op
    case GetOp(key) => AfterGet(c, key)
    case PutOp(key, value) => AfterPut(c, key, value, max)
  }

  /** Contents after a sequence of calls on an empty cache. */
  ghost function Run<V>(ops: seq<Op<V>>, max: nat): seq<(Key, V)> {
    if ops == [] then [] else Step(Run(ops[..|ops| - 1], max), ops[|ops| - 1], max)
  }

  /** The i-th call touches key k: it puts k, or it looks k up and finds it. */
  ghost predicate Touches<V>(ops: seq<Op<V>>, i: nat, k: Key, max: nat)
    requires i < |ops|
  {
    ops[i].key == k && (ops[i].GetOp? ==> HasKey(Run(ops[..i], max), k))
  }

  /** When k was last touched; -1 if never. */
  ghost function LastTouch<V>(ops: seq<Op<V>>, k: Key, max: nat): int {
    if ops == [] then -1
    else if Touches(ops, |ops| - 1, k, max) then |ops| - 1
    else LastTouch(ops[..|ops| - 1], k, max)
  }

  ghost predicate EverPut<V>(ops: seq<Op<V>>, k: Key) {
    exists i :: 0 <= i < |ops| && ops[i].PutOp? && ops[i].key == k
  }

  ghost function LastPut<V>(ops: seq<Op<V>>, k: Key): V
    requires EverPut(ops, k)
  {
    var op := ops[|ops| - 1];
    if op.PutOp? && op.key == k then op.value else LastPut(ops[..|ops| - 1], k)
  }

  /** The same calls on a list that never forgets, ordered by last touch. */
  ghost function Recency<V>(ops: seq<Op<V>>, max: nat): seq<(Key, V)> {
    if ops == [] then []
    else
      var r, op := Recency(ops[..|ops| - 1], max), ops[|ops| - 1];
      if op.PutOp? then [(op.key, op.value)] + RemoveKey(r, op.key)
      else if HasKey(r, op.key) && Touches(ops, |ops| - 1, op.key, max) then [(op.key, Find(r, op.key))] + RemoveKey(r, op.key)
      else r
  }

  function Take<T>(s: seq<T>, n: nat): seq<T> {
    if |s| <= n then s else s[..n]
  }

  lemma RemoveShape<V>(c: seq<(Key, V)>, key: Key) returns (at: nat)
    requires DistinctKeys(c)
    ensures if HasKey(c, key) then at < |c| && c[at].0 == key && RemoveKey(c, key) == c[..at] + c[at + 1..]
            else RemoveKey(c, key) == c
  {
    at := 0;
    if HasKey(c, key) {
      at :| 0 <= at < |c| && c[at].0 == key;
      RemoveKeyAt(c, at);
    } else {
      RemoveAbsent(c, key);
    }
  }

  // ---- The recency list is ordered by last touch and carries the last values put ----

  ghost predicate OrderedByTouch<V>(r: seq<(Key, V)>, ops: seq<Op<V>>, max: nat) {
    forall i, j :: 0 <= i < j < |r| ==> LastTouch(ops, r[i].0, max) > LastTouch(ops, r[j].0, max)
  }

  ghost predicate HoldsLastPuts<V>(r: seq<(Key, V)>, ops: seq<Op<V>>) {
    && (forall i :: 0 <= i < |r| ==> EverPut(ops, r[i].0) && r[i].1 == LastPut(ops, r[i].0))
    && forall k :: EverPut(ops, k) ==> HasKey(r, k)
  }

  lemma {:induction false} TouchBound<V>(ops: seq<Op<V>>, k: Key, max: nat)
    ensures -1 <= LastTouch(ops, k, max) < |ops|
  {
    if ops != [] {
      TouchBound(ops[..|ops| - 1], k, max);
    }
  }

  lemma EverPutStep<V>(ops: seq<Op<V>>, k: Key)
    requires ops != []
    ensures EverPut(ops, k) <==> EverPut(ops[..|ops| - 1], k) || (ops[|ops| - 1].PutOp? && ops[|ops| - 1].key == k)
  {
    if EverPut(ops[..|ops| - 1], k) {
      var i :| 0 <= i < |ops| - 1 && ops[..|ops| - 1][i].PutOp? && ops[..|ops| - 1][i].key == k;
      assert ops[i].PutOp? && ops[i].key == k;
    }
  }

  /** Where entry j of the list stood before key k was moved to its front from position `at`. */
  ghost function PositionBefore<V>(r: seq<(Key, V)>, k: Key, at: nat, j: int): int {
    if HasKey(r, k) && j - 1 >= at then j else j - 1
  }

  lemma MovedEntry<V>(r: seq<(Key, V)>, k: Key, value: V, at: nat, j: nat)
    requires DistinctKeys(r) && 0 < j <= |RemoveKey(r, k)|
    requires if HasKey(r, k) then at < |r| && r[at].0 == k && RemoveKey(r, k) == r[..at] + r[at + 1..] else RemoveKey(r, k) == r
    ensures 0 <= PositionBefore(r, k, at, j) < |r|
    ensures ([(k, value)] + RemoveKey(r, k))[j] == r[PositionBefore(r, k, at, j)] && r[PositionBefore(r, k, at, j)].0 != k
  {
  }

  lemma NotTouchedLast<V>(ops: seq<Op<V>>, k: Key, max: nat)
    requires ops != [] && ops[|ops| - 1].key != k
    ensures LastTouch(ops, k, max) == LastTouch(ops[..|ops| - 1], k, max) < |ops| - 1
  {
    TouchBound(ops[..|ops| - 1], k, max);
  }

  /** Moving key k to the front keeps the order when the last call touches k. */
  lemma FrontFacts<V>(r: seq<(Key, V)>, ops: seq<Op<V>>, max: nat, value: V)
    requires ops != [] && DistinctKeys(r) && Touches(ops, |ops| - 1, ops[|ops| - 1].key, max)
    requires OrderedByTouch(r, ops[..|ops| - 1], max)
    ensures var k := ops[|ops| - 1].key;
            DistinctKeys([(k, value)] + RemoveKey(r, k)) && OrderedByTouch([(k, value)] + RemoveKey(r, k), ops, max)
  {
    var front, k := ops[..|ops| - 1], ops[|ops| - 1].key;
    var at := RemoveShape(r, k);
    var moved := [(k, value)] + RemoveKey(r, k);
    assert LastTouch(ops, k, max) == |ops| - 1;
    forall i, j | 0 <= i < j < |moved|
      ensures moved[i].0 != moved[j].0 && LastTouch(ops, moved[i].0, max) > LastTouch(ops, moved[j].0, max)
    {
      MovedEntry(r, k, value, at, j);
      NotTouchedLast(ops, moved[j].0, max);
      if i > 0 {
        MovedEntry(r, k, value, at, i);
        NotTouchedLast(ops, moved[i].0, max);
        assert PositionBefore(r, k, at, i) < PositionBefore(r, k, at, j);
      }
    }
  }

  lemma StillThere<V>(r: seq<(Key, V)>, k: Key, value: V, i: nat)
    requires DistinctKeys(r) && i < |r| && r[i].0 != k
    ensures HasKey([(k, value)] + RemoveKey(r, k), r[i].0)
  {
    var at := RemoveShape(r, k);
    var moved := [(k, value)] + RemoveKey(r, k);
    assert moved[if HasKey(r, k) && i >= at then i else i + 1] == r[i];
  }

  lemma FrontHoldsPuts<V>(r: seq<(Key, V)>, ops: seq<Op<V>>, k: Key, value: V)
    requires ops != [] && ops[|ops| - 1].key == k && DistinctKeys(r)
    requires HoldsLastPuts(r, ops[..|ops| - 1])
    requires EverPut(ops, k) && value == LastPut(ops, k)
    ensures HoldsLastPuts([(k, value)] + RemoveKey(r, k), ops)
  {
    var at := RemoveShape(r, k);
    var front, moved := ops[..|ops| - 1], [(k, value)] + RemoveKey(r, k);
    forall i | 0 <= i < |moved|
      ensures EverPut(ops, moved[i].0) && moved[i].1 == LastPut(ops, moved[i].0)
    {
      EverPutStep(ops, moved[i].0);
    }
    forall x | EverPut(ops, x)
      ensures HasKey(moved, x)
    {
      EverPutStep(ops, x);
      if x == k {
        assert moved[0].0 == x;
      } else {
        var i :| 0 <= i < |r| && r[i].0 == x;
        StillThere(r, k, value, i);
      }
    }
  }

  lemma {:induction false} RecencyFacts<V>(ops: seq<Op<V>>, max: nat)
    ensures DistinctKeys(Recency(ops, max))
    ensures OrderedByTouch(Recency(ops, max), ops, max)
    ensures HoldsLastPuts(Recency(ops, max), ops)
  {
    if ops != [] {
      var front, op := ops[..|ops| - 1], ops[|ops| - 1];
      var r := Recency(front, max);
      RecencyFacts(front, max);
      EverPutStep(ops, op.key);
      if op.PutOp? {
        FrontFacts(r, ops, max, op.value);
        assert ops[|ops| - 1].PutOp? && ops[|ops| - 1].key == op.key;
        FrontHoldsPuts(r, ops, op.key, op.value);
      } else if HasKey(r, op.key) && Touches(ops, |ops| - 1, op.key, max) {
        var i :| 0 <= i < |r| && r[i].0 == op.key;
        FindAt(r, i);
        FrontFacts(r, ops, max, Find(r, op.key));
        FrontHoldsPuts(r, ops, op.key, Find(r, op.key));
      } else {
        RunIsPrefix(front, max);
        if HasKey(Run(front, max), op.key) {
          TakeKeepsFind(r, op.key, max);
        }
        forall k
          ensures EverPut(ops, k) <==> EverPut(front, k)
          ensures LastTouch(ops, k, max) == LastTouch(front, k, max)
        {
          EverPutStep(ops, k);
        }
      }
    }
  }

  /** Refinement: the cache holds exactly the first max entries of the recency list. */
  lemma {:induction false} RunIsPrefix<V>(ops: seq<Op<V>>, max: nat)
    ensures Run(ops, max) == Take(Recency(ops, max), max)
  {
    if ops != [] {
      var front, op := ops[..|ops| - 1], ops[|ops| - 1];
      var r := Recency(front, max);
      RunIsPrefix(front, max);
      RecencyFacts(front, max);
      if op.PutOp? {
        TakeMoved(r, op.key, op.value, max);
      } else if HasKey(Run(front, max), op.key) {
        TakeKeepsFind(r, op.key, max);
        TakeMoved(r, op.key, Find(r, op.key), max);
      }
    }
  }

  lemma {:induction false} FindPrefix<V>(c: seq<(Key, V)>, n: nat, key: Key)
    requires n <= |c| && HasKey(c[..n], key)
    ensures HasKey(c, key) && Find(c, key) == Find(c[..n], key)
  {
    var i :| 0 <= i < n && c[..n][i].0 == key;
    assert c[i].0 == key;
    if c[0].0 != key {
      assert c[..n][1..] == c[1..][..n - 1];
      assert c[1..][..n - 1][i - 1].0 == key;
      FindPrefix(c[1..], n - 1, key);
    }
  }

  lemma TakeKeepsFind<V>(r: seq<(Key, V)>, k: Key, max: nat)
    requires HasKey(Take(r, max), k)
    ensures HasKey(r, k) && Find(r, k) == Find(Take(r, max), k)
  {
    if |r| > max {
      FindPrefix(r, max, k);
    }
  }

  /** Moving k to the front of the long list, seen through its first max entries. */
  lemma TakeMoved<V>(r: seq<(Key, V)>, k: Key, v: V, max: nat)
    requires DistinctKeys(r)
    ensures var c := Take(r, max);
            Take([(k, v)] + RemoveKey(r, k), max) ==
            if max == 0 then []
            else [(k, v)] + if HasKey(c, k) then RemoveKey(c, k) else if |c| >= max then c[..|c| - 1] else c
  {
    var c := Take(r, max);
    var at := RemoveShape(r, k);
    assert forall i :: 0 <= i < |c| ==> c[i] == r[i];
    if HasKey(c, k) {
      var i :| 0 <= i < |c| && c[i].0 == k;
      assert r[i].0 == k && i == at;
      RemoveKeyAt(c, at);
      TakeWithin(r, (k, v), at, max);
    } else if HasKey(r, k) {
      TakeBeyond(r, (k, v), at, max);
    }
  }

  /** The moved entry is among the first max. */
  lemma TakeWithin<V>(r: seq<(Key, V)>, entry: (Key, V), at: nat, max: nat)
    requires at < |Take(r, max)|
    ensures Take([entry] + (r[..at] + r[at + 1..]), max) == [entry] + (Take(r, max)[..at] + Take(r, max)[at + 1..])
  {
  }

  /** The moved entry comes from behind the first max, so the last of those drops out. */
  lemma TakeBeyond<V>(r: seq<(Key, V)>, entry: (Key, V), at: nat, max: nat)
    requires |Take(r, max)| <= at < |r|
    ensures |Take(r, max)| == max
    ensures max > 0 ==> Take([entry] + (r[..at] + r[at + 1..]), max) == [entry] + Take(r, max)[..max - 1]
  {
  }

  /** The cache refines its specification: at most max entries, and they are the most recently touched
      keys, most recent first, each with the value last put; nothing touched later has been dropped. */
  lemma CacheHoldsMostRecent<V>(ops: seq<Op<V>>, max: nat)
    ensures |Run(ops, max)| <= max && DistinctKeys(Run(ops, max)) && OrderedByTouch(Run(ops, max), ops, max)
    ensures forall i :: 0 <= i < |Run(ops, max)| ==>
              EverPut(ops, Run(ops, max)[i].0) && Run(ops, max)[i].1 == LastPut(ops, Run(ops, max)[i].0)
    ensures forall k :: EverPut(ops, k) && !HasKey(Run(ops, max), k) ==>
              |Run(ops, max)| == max
              && forall i :: 0 <= i < max ==> LastTouch(ops, Run(ops, max)[i].0, max) > LastTouch(ops, k, max)
  {
    RunIsPrefix(ops, max);
    RecencyFacts(ops, max);
    var c, r := Run(ops, max), Recency(ops, max);
    assert forall j :: 0 <= j < |c| ==> c[j] == r[j];
    forall k | EverPut(ops, k) && !HasKey(c, k)
      ensures |c| == max && forall i :: 0 <= i < max ==> LastTouch(ops, c[i].0, max) > LastTouch(ops, k, max)
    {
      var j :| 0 <= j < |r| && r[j].0 == k;
    }
  }
}
