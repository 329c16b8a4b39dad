/**
 * The cache of parsed offset tables: a map, a recency list of its keys, and a byte count, kept within 16
 * entries and 256 MiB by dropping the least recently used.
 *
 * The specification is one list of entries, most recent first.
 */
module TablxCache {
  import opened Bytes

  const MAX_ENTRIES := 16
  const MAX_BYTES := 256 * 1024 * 1024
  const WORD := 8

  datatype Key = Key(device: uint64, inode: uint64, fileSize: uint64, mtime: int, mtimeNsec: int)

  datatype Value = Value(offsets: seq<uint64>, featureCount: nat)

  function Size(v: Value): nat {
    |v.offsets| * WORD
  }

  // ---- Specification -------------------------------------------------------------------------------

  type Recency = seq<(Key, Value)>

  function TotalBytes(l: Recency): nat {
    if l == [] then 0 else Size(l[0].1) + TotalBytes(l[1..])
  }

  predicate Holds(l: Recency, k: Key) {
    exists i :: 0 <= i < |l| && l[i].0 == k
  }

  predicate Distinct(l: Recency) {
    forall i, j :: 0 <= i < j < |l| ==> l[i].0 != l[j].0
  }

  function Lookup(l: Recency, k: Key): Option<Value> {
    if l == [] then None else if l[0].0 == k then Some(l[0].1) else Lookup(l[1..], k)
  }

  function Without(l: Recency, k: Key): Recency {
    if l == [] then [] else if l[0].0 == k then l[1..] else [l[0]] + Without(l[1..], k)
  }

  /** A hit becomes the most recent entry. */
  function AfterGet(l: Recency, k: Key): Recency {
    var hit := Lookup(l, k);
    if hit.None? then l else [(k, hit.value)] + Without(l, k)
  }

  predicate HasRoom(l: Recency, size: nat) {
    |l| < MAX_ENTRIES && TotalBytes(l) + size <= MAX_BYTES
  }

  /** Nothing is left to drop, or nothing needs to be. */
  predicate Roomy(l: Recency, size: nat) {
    l == [] || HasRoom(l, size)
  }

  /** What is left when the oldest entries make room for a new one. */
  function Evict(l: Recency, size: nat): Recency
    decreases |l|
  {
    if Roomy(l, size) then l else Evict(l[..|l| - 1], size)
  }

  predicate Accepts(v: Value) {
    |v.offsets| <= MAX_BYTES / WORD
  }

  function AfterPut(l: Recency, k: Key, v: Value): Recency {
    if !Accepts(v) then l
    else if Lookup(l, k).Some? then [(k, v)] + Without(l, k)
    else [(k, v)] + Evict(l, Size(v))
  }

  datatype Operation = Get(k: Key) | Put(k: Key, v: Value) | Clear

  function Apply(l: Recency, op: Operation): Recency {
    match op
    case Get(k) => AfterGet(l, k)
    case Put(k, v) => AfterPut(l, k, v)
    case Clear => []
  }

  /** The cache after a history of operations, oldest first. */
  function RunAll(ops: seq<Operation>): Recency {
    if ops == [] then [] else Apply(RunAll(ops[..|ops| - 1]), ops[|ops| - 1])
  }

  /** The value most recently accepted for a key since the last clear. */
  function LastAccepted(ops: seq<Operation>, k: Key): Option<Value> {
    if ops == [] then None
    else
      var op := ops[|ops| - 1];
      if op.Clear? then None
      else if op.Put? && op.k == k && Accepts(op.v) then Some(op.v)
      else LastAccepted(ops[..|ops| - 1], k)
  }

  // ---- Facts about lists ---------------------------------------------------------------------------

  lemma {:induction false} LookupFinds(l: Recency, k: Key)
    requires Distinct(l)
    ensures Lookup(l, k).Some? <==> Holds(l, k)
    ensures forall i :: 0 <= i < |l| && l[i].0 == k ==> Lookup(l, k) == Some(l[i].1)
  {
    if l == [] {
    } else {
      LookupFinds(l[1..], k);
      if l[0].0 != k && Holds(l, k) {
        var i :| 0 <= i < |l| && l[i].0 == k;
        assert l[1..][i - 1].0 == k;
      }
      forall i | 0 < i < |l| && l[i].0 == k
        ensures Lookup(l, k) == Some(l[i].1)
      {
        assert l[1..][i - 1] == l[i];
      }
    }
  }

  lemma {:induction false} WithoutSizes(l: Recency, k: Key)
    ensures |Without(l, k)| == |l| - (if Lookup(l, k).Some? then 1 else 0)
    ensures TotalBytes(Without(l, k)) + (if Lookup(l, k).Some? then Size(Lookup(l, k).value) else 0) == TotalBytes(l)
  {
    if l == [] {
    } else {
      WithoutSizes(l[1..], k);
      if l[0].0 != k {
        assert Without(l, k)[1..] == Without(l[1..], k);
      }
    }
  }

  lemma {:induction false} WithoutMembers(l: Recency, k: Key)
    requires Distinct(l)
    ensures forall x :: x in Without(l, k) <==> x in l && x.0 != k
  {
    if l == [] {
    } else {
      assert l == [l[0]] + l[1..];
      WithoutMembers(l[1..], k);
      if l[0].0 == k {
        forall x <- l[1..]
          ensures x.0 != k
        {
          var i :| 0 <= i < |l[1..]| && l[1..][i] == x;
          assert l[i + 1] == x;
        }
      }
    }
  }

  lemma {:induction false} WithoutDistinct(l: Recency, k: Key)
    requires Distinct(l)
    ensures Distinct(Without(l, k))
  {
    if l == [] || l[0].0 == k {
    } else {
      var w := Without(l[1..], k);
      WithoutDistinct(l[1..], k);
      WithoutMembers(l[1..], k);
      forall i | 0 <= i < |w|
        ensures w[i].0 != l[0].0
      {
        assert w[i] in l[1..];
      }
    }
  }

  lemma WithoutEntries(l: Recency, k: Key)
    requires Distinct(l)
    ensures Distinct(Without(l, k)) && !Holds(Without(l, k), k)
    ensures forall x :: x in Without(l, k) <==> x in l && x.0 != k
    ensures |Without(l, k)| == |l| - (if Lookup(l, k).Some? then 1 else 0)
    ensures TotalBytes(Without(l, k)) + (if Lookup(l, k).Some? then Size(Lookup(l, k).value) else 0) == TotalBytes(l)
  {
    WithoutSizes(l, k);
    WithoutMembers(l, k);
    WithoutDistinct(l, k);
    forall i | 0 <= i < |Without(l, k)|
      ensures Without(l, k)[i].0 != k
    {
      assert Without(l, k)[i] in Without(l, k);
    }
  }

  lemma {:induction false} TotalBytesAppend(l: Recency, m: Recency)
    ensures TotalBytes(l + m) == TotalBytes(l) + TotalBytes(m)
  {
    if l == [] {
      assert l + m == m;
    } else {
      assert (l + m)[1..] == l[1..] + m;
      TotalBytesAppend(l[1..], m);
    }
  }

  lemma {:induction false} WithoutIs(l: Recency, k: Key, i: nat)
    requires Distinct(l) && i < |l| && l[i].0 == k
    ensures Without(l, k) == l[..i] + l[i + 1..] && Lookup(l, k) == Some(l[i].1)
  {
    if i == 0 {
    } else {
      WithoutIs(l[1..], k, i - 1);
      assert l[..i] == [l[0]] + l[1..][..i - 1];
    }
  }

  lemma {:induction false} WithoutMissing(l: Recency, k: Key)
    requires !Holds(l, k)
    ensures Lookup(l, k) == None
  {
    if l == [] {
    } else {
      assert !Holds(l[1..], k) by {
        forall i | 0 <= i < |l[1..]|
          ensures l[1..][i].0 != k
        {
          assert l[i + 1].0 != k;
        }
      }
      WithoutMissing(l[1..], k);
    }
  }

  // ---- What the cache promises ---------------------------------------------------------------------

  /** Making room keeps the longest run of most recent entries that leaves room, and only that. */
  lemma {:induction false} EvictKeepsLongestPrefix(l: Recency, size: nat, n: nat)
    requires size <= MAX_BYTES && n <= |l|
    ensures Evict(l, size) <= l && HasRoom(Evict(l, size), size)
    ensures HasRoom(l[..n], size) ==> n <= |Evict(l, size)|
    decreases |l|
  {
    if Roomy(l, size) {
    } else {
      var shorter := l[..|l| - 1];
      if n < |l| {
        assert shorter[..n] == l[..n];
        EvictKeepsLongestPrefix(shorter, size, n);
      } else {
        assert l[..n] == l;
        EvictKeepsLongestPrefix(shorter, size, 0);
      }
    }
  }

  /** A hit takes its entry to the front and leaves the others in their order; an update does so with the new value. */
  lemma HitMovesToFront(l: Recency, k: Key, i: nat, v: Value)
    requires Distinct(l) && i < |l| && l[i].0 == k
    ensures AfterGet(l, k) == [l[i]] + l[..i] + l[i + 1..]
    ensures AfterPut(l, k, v) == if Accepts(v) then [(k, v)] + l[..i] + l[i + 1..] else l
  {
    WithoutIs(l, k, i);
    assert [l[i]] + (l[..i] + l[i + 1..]) == [l[i]] + l[..i] + l[i + 1..];
    assert [(k, v)] + (l[..i] + l[i + 1..]) == [(k, v)] + l[..i] + l[i + 1..];
  }

  /** A miss changes nothing, and what is put for a new key comes in front of the most recent entries that leave it room. */
  lemma MissLeavesAll(l: Recency, k: Key, v: Value, n: nat)
    requires !Holds(l, k) && n <= |l|
    ensures AfterGet(l, k) == l
    ensures Size(v) > MAX_BYTES ==> AfterPut(l, k, v) == l
    ensures Size(v) <= MAX_BYTES ==>
      && AfterPut(l, k, v) != [] && AfterPut(l, k, v)[0] == (k, v)
      && AfterPut(l, k, v)[1..] <= l
      && |AfterPut(l, k, v)| <= MAX_ENTRIES && TotalBytes(AfterPut(l, k, v)) <= MAX_BYTES
      && (n < MAX_ENTRIES && TotalBytes([(k, v)] + l[..n]) <= MAX_BYTES ==> n < |AfterPut(l, k, v)|)
  {
    WithoutMissing(l, k);
    if Accepts(v) {
      EvictKeepsLongestPrefix(l, Size(v), n);
      assert ([(k, v)] + Evict(l, Size(v)))[1..] == Evict(l, Size(v));
      assert ([(k, v)] + l[..n])[1..] == l[..n];
    }
  }

  ghost predicate RecencyOk(l: Recency) {
    Distinct(l) && |l| <= MAX_ENTRIES && forall i :: 0 <= i < |l| ==> Size(l[i].1) <= MAX_BYTES
  }

  lemma FrontOk(k: Key, v: Value, l: Recency)
    requires RecencyOk(l) && !Holds(l, k) && |l| < MAX_ENTRIES && Accepts(v)
    ensures RecencyOk([(k, v)] + l) && TotalBytes([(k, v)] + l) == Size(v) + TotalBytes(l)
  {
    assert ([(k, v)] + l)[1..] == l;
  }

  lemma WithoutOk(l: Recency, k: Key)
    requires RecencyOk(l)
    ensures RecencyOk(Without(l, k)) && !Holds(Without(l, k), k)
    ensures Lookup(l, k).Some? ==> |Without(l, k)| < MAX_ENTRIES && Accepts(Lookup(l, k).value)
  {
    WithoutEntries(l, k);
    LookupFinds(l, k);
    forall i | 0 <= i < |Without(l, k)|
      ensures Size(Without(l, k)[i].1) <= MAX_BYTES
    {
      assert Without(l, k)[i] in l;
    }
  }

  lemma EvictOk(l: Recency, k: Key, size: nat)
    requires RecencyOk(l) && size <= MAX_BYTES && Lookup(l, k).None?
    ensures RecencyOk(Evict(l, size)) && !Holds(Evict(l, size), k) && HasRoom(Evict(l, size), size)
  {
    EvictKeepsLongestPrefix(l, size, 0);
    LookupFinds(l, k);
  }

  lemma RecencyKept(l: Recency, op: Operation)
    requires RecencyOk(l)
    ensures RecencyOk(Apply(l, op))
  {
    match op
    case Get(k) =>
      WithoutOk(l, k);
      if Lookup(l, k).Some? { FrontOk(k, Lookup(l, k).value, Without(l, k)); }
    case Put(k, v) =>
      WithoutOk(l, k);
      if Accepts(v) && Lookup(l, k).Some? {
        FrontOk(k, v, Without(l, k));
      } else if Accepts(v) {
        EvictOk(l, k, Size(v));
        FrontOk(k, v, Evict(l, Size(v)));
      }
    case Clear =>
  }

  /** Distinct keys and at most 16 entries, after any history. */
  lemma {:induction false} AlwaysOk(ops: seq<Operation>)
    ensures RecencyOk(RunAll(ops))
  {
    if ops == [] {
    } else {
      AlwaysOk(ops[..|ops| - 1]);
      RecencyKept(RunAll(ops[..|ops| - 1]), ops[|ops| - 1]);
    }
  }

  /** What one operation can do to what a key finds. */
  lemma LookupAfter(l: Recency, op: Operation, k: Key)
    requires RecencyOk(l)
    ensures Lookup(Apply(l, op), k).Some? ==>
      Lookup(Apply(l, op), k) == if op.Put? && op.k == k && Accepts(op.v) then Some(op.v) else Lookup(l, k)
    ensures op.Put? && op.k == k && Accepts(op.v) ==> Lookup(Apply(l, op), k).Some?
    ensures op.Get? ==> Lookup(Apply(l, op), k) == Lookup(l, k)
  {
    if !op.Clear? {
      var after := Apply(l, op);
      LookupFinds(l, k);
      LookupFinds(l, op.k);
      WithoutEntries(l, op.k);
      RecencyKept(l, op);
      LookupFinds(after, k);
      if op.Put? && Accepts(op.v) {
        EvictKeepsLongestPrefix(l, Size(op.v), 0);
      }
      if Holds(after, k) && k != op.k {
        var i :| 0 <= i < |after| && after[i].0 == k;
        assert after[i] in l;
      }
      if op.Get? && Holds(l, k) && k != op.k {
        var i :| 0 <= i < |l| && l[i].0 == k;
        assert l[i] in after;
      }
    }
  }

  /** A get is a miss or the value last accepted for its key; right after an accepted put it is a hit. */
  lemma {:induction false} GetReturnsLastAccepted(ops: seq<Operation>, k: Key)
    ensures Lookup(RunAll(ops), k).None? || Lookup(RunAll(ops), k) == LastAccepted(ops, k)
    ensures ops != [] && ops[|ops| - 1].Put? && ops[|ops| - 1].k == k && Accepts(ops[|ops| - 1].v) ==>
      Lookup(RunAll(ops), k).Some?
  {
    if ops == [] {
    } else {
      var earlier := ops[..|ops| - 1];
      GetReturnsLastAccepted(earlier, k);
      AlwaysOk(earlier);
      LookupAfter(RunAll(earlier), ops[|ops| - 1], k);
    }
  }

  /**
   * The byte budget after a put: an accepted insert always meets it, whatever the total was before; an
   * update meets it exactly when what stays and the new value fit together, because it evicts nothing.
   */
  lemma BudgetAfterPut(l: Recency, k: Key, v: Value)
    requires RecencyOk(l) && Accepts(v)
    ensures Lookup(l, k).None? ==> TotalBytes(AfterPut(l, k, v)) <= MAX_BYTES
    ensures Lookup(l, k).Some? ==>
      (TotalBytes(AfterPut(l, k, v)) <= MAX_BYTES <==>
        Size(v) <= MAX_BYTES - TotalBytes(l) + Size(Lookup(l, k).value))
  {
    WithoutEntries(l, k);
    EvictKeepsLongestPrefix(l, Size(v), 0);
    assert AfterPut(l, k, v)[1..] == if Lookup(l, k).Some? then Without(l, k) else Evict(l, Size(v));
  }

  /** Updating alone can take the total over the budget: to twice it, with two entries. */
  lemma UpdateOverBudget(a: Key, b: Key)
    requires a != b
    ensures var full := Value(seq(MAX_BYTES / WORD, _ => 0), 0);
      var ops := [Put(a, full), Put(b, Value([], 0)), Put(b, full)];
      TotalBytes(RunAll(ops)) == 2 * MAX_BYTES
  {
    var full, empty := Value(seq(MAX_BYTES / WORD, _ => 0), 0), Value([], 0);
    var ops := [Put(a, full), Put(b, empty), Put(b, full)];
    assert ops[..2] == [Put(a, full), Put(b, empty)] && ops[..2][..1] == [Put(a, full)] && ops[..2][..1][..0] == [];
    var one := [(a, full)];
    assert one[1..] == [];
    assert RunAll([Put(a, full)]) == one by { assert [Put(a, full)][..0] == []; }
    assert Lookup(one[1..], b) == None && Lookup(one, b) == None;
    assert HasRoom(one, Size(empty)) && one[..1] == one;
    EvictKeepsLongestPrefix(one, Size(empty), 1);
    var two := [(b, empty)] + one;
    assert RunAll(ops[..2]) == Apply(RunAll(ops[..2][..1]), ops[..2][1]) == AfterPut(one, b, empty) == two;
    assert two[1..] == one;
    var three := [(b, full)] + one;
    assert three[1..] == one;
    assert RunAll(ops) == three;
  }

  // ---- The program -----------------------------------------------------------------------------------

  /** The list a map and its recency keys stand for. */
  function Zip(keys: seq<Key>, cache: map<Key, Value>): Recency
    requires forall k <- keys :: k in cache
  {
    if keys == [] then [] else [(keys[0], cache[keys[0]])] + Zip(keys[1..], cache)
  }

  function RemoveKey(keys: seq<Key>, k: Key): seq<Key> {
    if keys == [] then [] else if keys[0] == k then keys[1..] else [keys[0]] + RemoveKey(keys[1..], k)
  }

  predicate DistinctKeys(keys: seq<Key>) {
    forall i, j :: 0 <= i < j < |keys| ==> keys[i] != keys[j]
  }

  lemma {:induction false} ZipAt(keys: seq<Key>, cache: map<Key, Value>, i: nat)
    requires forall k <- keys :: k in cache
    ensures |Zip(keys, cache)| == |keys|
    ensures i < |keys| ==> Zip(keys, cache)[i] == (keys[i], cache[keys[i]])
  {
    if keys == [] {
    } else {
      ZipAt(keys[1..], cache, if i > 0 then i - 1 else 0);
    }
  }

  lemma {:induction false} ZipAgrees(keys: seq<Key>, cache: map<Key, Value>, other: map<Key, Value>)
    requires forall k <- keys :: k in cache && k in other && cache[k] == other[k]
    ensures Zip(keys, cache) == Zip(keys, other)
  {
    if keys == [] {
    } else {
      ZipAgrees(keys[1..], cache, other);
    }
  }

  lemma {:induction false} RemoveKeyKeys(keys: seq<Key>, k: Key)
    requires DistinctKeys(keys)
    ensures DistinctKeys(RemoveKey(keys, k))
    ensures forall x :: x in RemoveKey(keys, k) <==> x in keys && x != k
  {
    if keys == [] {
    } else {
      var t := keys[1..];
      RemoveKeyKeys(t, k);
      assert keys == [keys[0]] + t;
      if keys[0] != k {
        var r := RemoveKey(t, k);
        assert keys[0] !in r;
        assert RemoveKey(keys, k) == [keys[0]] + r;
      }
    }
  }

  lemma {:induction false} ZipWithout(keys: seq<Key>, cache: map<Key, Value>, k: Key)
    requires DistinctKeys(keys) && forall x <- keys :: x in cache
    ensures forall x <- RemoveKey(keys, k) :: x in cache
    ensures Zip(RemoveKey(keys, k), cache) == Without(Zip(keys, cache), k)
    ensures Lookup(Zip(keys, cache), k) == if k in keys then Some(cache[k]) else None
  {
    RemoveKeyKeys(keys, k);
    if keys == [] {
    } else {
      var t := keys[1..];
      ZipWithout(t, cache, k);
      assert keys == [keys[0]] + t;
      assert Zip(keys, cache)[1..] == Zip(t, cache);
      if keys[0] != k {
        var r := RemoveKey(keys, k);
        assert r[1..] == RemoveKey(t, k);
      }
    }
  }

  lemma {:induction false} ZipPrefix(keys: seq<Key>, cache: map<Key, Value>, n: nat)
    requires n <= |keys| && forall x <- keys :: x in cache
    ensures |Zip(keys, cache)| == |keys| && Zip(keys[..n], cache) == Zip(keys, cache)[..n]
  {
    ZipAt(keys, cache, 0);
    if n == 0 {
    } else {
      ZipPrefix(keys[1..], cache, n - 1);
      assert keys[..n][1..] == keys[1..][..n - 1];
    }
  }

  lemma {:induction false} KeyCount(keys: seq<Key>, cache: map<Key, Value>)
    requires DistinctKeys(keys) && forall k :: k in keys <==> k in cache
    ensures |keys| == |cache|
  {
    if keys != [] {
      var fewer := cache - {keys[0]};
      assert keys == [keys[0]] + keys[1..];
      KeyCount(keys[1..], fewer);
      assert cache.Keys == fewer.Keys + {keys[0]};
    } else {
      assert cache.Keys == {};
    }
  }

  lemma LastBytes(l: Recency)
    requires l != []
    ensures TotalBytes(l) == TotalBytes(l[..|l| - 1]) + Size(l[|l| - 1].1)
  {
    var last := l[|l| - 1..];
    assert l == l[..|l| - 1] + last && last[1..] == [];
    TotalBytesAppend(l[..|l| - 1], last);
  }

  lemma OldestKeyApart(keys: seq<Key>, cache: map<Key, Value>)
    requires DistinctKeys(keys) && keys != [] && (forall k :: k in keys <==> k in cache)
    ensures var rest, fewer := keys[..|keys| - 1], cache - {keys[|keys| - 1]};
      forall k :: k in rest <==> k in fewer
  {
    assert keys == keys[..|keys| - 1] + [keys[|keys| - 1]];
  }

  lemma FrontOfOk(l: Recency, n: nat)
    requires RecencyOk(l) && n <= |l|
    ensures RecencyOk(l[..n])
  {
  }

  /** The last key and its entry can go without disturbing the others. */
  lemma OldestApart(keys: seq<Key>, cache: map<Key, Value>)
    requires DistinctKeys(keys) && keys != [] && (forall k :: k in keys <==> k in cache)
    ensures var last := |keys| - 1;
      var all, rest, fewer := Zip(keys, cache), keys[..last], cache - {keys[last]};
      && |all| == |keys|
      && (forall k :: k in rest <==> k in fewer)
      && Zip(rest, fewer) == all[..last]
      && TotalBytes(all) == TotalBytes(all[..last]) + Size(cache[keys[last]])
      && (RecencyOk(all) ==> RecencyOk(all[..last]))
  {
    var last := |keys| - 1;
    var all, rest, fewer := Zip(keys, cache), keys[..last], cache - {keys[last]};
    OldestKeyApart(keys, cache);
    ZipAt(keys, cache, last);
    ZipPrefix(keys, cache, last);
    assert Zip(rest, fewer) == Zip(rest, cache) by { ZipAgrees(rest, cache, fewer); }
    assert TotalBytes(all) == TotalBytes(all[..last]) + Size(cache[keys[last]]) by { LastBytes(all); }
    if RecencyOk(all) {
      FrontOfOk(all, last);
    }
  }

  lemma NewestInFront(keys: seq<Key>, cache: map<Key, Value>, k: Key, v: Value)
    requires DistinctKeys(keys) && k !in cache && (forall x :: x in keys <==> x in cache)
    requires RecencyOk(Zip(keys, cache)) && |Zip(keys, cache)| < MAX_ENTRIES && Accepts(v)
    ensures var more, fuller := [k] + keys, cache[k := v];
      && DistinctKeys(more) && (forall x :: x in more <==> x in fuller)
      && Zip(more, fuller) == [(k, v)] + Zip(keys, cache)
      && RecencyOk(Zip(more, fuller))
      && TotalBytes(Zip(more, fuller)) == Size(v) + TotalBytes(Zip(keys, cache))
  {
    var l := Zip(keys, cache);
    ZipAgrees(keys, cache, cache[k := v]);
    assert ([k] + keys)[1..] == keys;
    forall i | 0 <= i < |l|
      ensures l[i].0 != k
    {
      ZipAt(keys, cache, i);
    }
    FrontOk(k, v, l);
  }

  lemma EvictStep(l: Recency, size: nat)
    ensures Evict(l, size) == if Roomy(l, size) then l else Evict(l[..|l| - 1], size)
  {
  }

  /** The loop's test, on map and byte count, is the specification's test on the list. */
  lemma RoomTest(keys: seq<Key>, cache: map<Key, Value>, bytes: nat, size: nat)
    requires DistinctKeys(keys) && (forall k :: k in keys <==> k in cache)
    requires bytes == TotalBytes(Zip(keys, cache)) && size <= MAX_BYTES
    ensures var l := Zip(keys, cache);
      && |l| == |keys|
      && (Roomy(l, size) <==> !(|cache| > 0 && (|cache| >= MAX_ENTRIES || bytes > MAX_BYTES - size)))
      && (l == [] <==> keys == [])
  {
    KeyCount(keys, cache);
    ZipAt(keys, cache, 0);
  }

  class TablxCache {
    var cache: map<Key, Value>
    var lruList: seq<Key>
    var cachedBytes: nat

    /** Map and list hold the same keys, the list holds each once, and the bytes are counted. */
    ghost predicate Valid()
      reads this
    {
      && DistinctKeys(lruList)
      && (forall k :: k in lruList <==> k in cache)
      && RecencyOk(Contents())
      && cachedBytes == TotalBytes(Contents())
    }

    function Contents(): Recency
      reads this
    {
      if forall k <- lruList :: k in cache then Zip(lruList, cache) else []
    }

    constructor ()
      ensures Valid() && Contents() == []
    {
      cache, lruList, cachedBytes := map[], [], 0;
    }

    method Touch(k: Key)
      requires DistinctKeys(lruList) && (forall x :: x in lruList <==> x in cache) && k in cache
      modifies this`lruList
      ensures DistinctKeys(lruList) && (forall x :: x in lruList <==> x in cache)
      ensures Contents() == [(k, cache[k])] + Without(old(Contents()), k)
    {
      RemoveKeyKeys(lruList, k);
      ZipWithout(lruList, cache, k);
      var others := RemoveKey(lruList, k);
      lruList := [k] + others;
      assert lruList[1..] == others;
    }

    method Get(k: Key) returns (value: Option<Value>)
      requires Valid()
      modifies this`lruList
      ensures Valid()
      ensures value == Lookup(old(Contents()), k)
      ensures Contents() == Apply(old(Contents()), Operation.Get(k))
    {
      ghost var was := Contents();
      ZipWithout(lruList, cache, k);
      if k !in cache {
        return None;
      }
      Touch(k);
      RecencyKept(was, Operation.Get(k));
      WithoutSizes(was, k);
      assert Contents()[1..] == Without(was, k);
      value := Some(cache[k]);
    }

    method DropOldest()
      requires Valid() && lruList != []
      modifies this
      ensures Valid()
      ensures |lruList| == old(|lruList|) - 1 && cache.Keys <= old(cache.Keys)
      ensures |old(Contents())| == old(|lruList|) && Contents() == old(Contents())[..|lruList|]
    {
      var last := |lruList| - 1;
      var oldest := lruList[last];
      OldestApart(lruList, cache);
      cachedBytes := cachedBytes - Size(cache[oldest]);
      cache := cache - {oldest};
      lruList := lruList[..last];
    }

    method Insert(k: Key, v: Value)
      requires Valid() && k !in cache && HasRoom(Contents(), Size(v)) && Accepts(v)
      modifies this
      ensures Valid()
      ensures Contents() == [(k, v)] + old(Contents())
    {
      NewestInFront(lruList, cache, k, v);
      lruList := [k] + lruList;
      cache := cache[k := v];
      cachedBytes := cachedBytes + Size(v);
    }

    method Put(k: Key, v: Value)
      requires Valid()
      modifies this
      ensures Valid()
      ensures Contents() == Apply(old(Contents()), Operation.Put(k, v))
    {
      if |v.offsets| > MAX_BYTES / WORD {
        return;
      }
      ghost var was := Contents();
      ZipWithout(lruList, cache, k);
      if k in cache {
        Replace(k, v);
        return;
      }
      MakeRoom(k, Size(v));
      Insert(k, v);
    }

    /** Drops the oldest entries until the new one fits. */
    method MakeRoom(ghost k: Key, size: nat)
      requires Valid() && k !in cache && size <= MAX_BYTES
      modifies this
      ensures Valid() && k !in cache
      ensures Contents() == Evict(old(Contents()), size) && HasRoom(Contents(), size)
    {
      ghost var kept := Contents();
      RoomTest(lruList, cache, cachedBytes, size);
      while |cache| > 0 && (|cache| >= MAX_ENTRIES || cachedBytes > MAX_BYTES - size)
        invariant Valid() && k !in cache && kept == Contents()
        invariant Roomy(kept, size) <==> !(|cache| > 0 && (|cache| >= MAX_ENTRIES || cachedBytes > MAX_BYTES - size))
        invariant Evict(kept, size) == Evict(old(Contents()), size)
        decreases |kept|
      {
        DropOldest();
        EvictStep(kept, size);
        kept := kept[..|kept| - 1];
        RoomTest(lruList, cache, cachedBytes, size);
      }
      EvictStep(kept, size);
    }

    method Replace(k: Key, v: Value)
      requires Valid() && k in cache && Accepts(v)
      modifies this
      ensures Valid()
      ensures Contents() == [(k, v)] + Without(old(Contents()), k)
    {
      ghost var was := Contents();
      ZipWithout(lruList, cache, k);
      WithoutSizes(was, k);
      RecencyKept(was, Operation.Put(k, v));
      RemoveKeyKeys(lruList, k);
      ZipAgrees(RemoveKey(lruList, k), cache, cache[k := v]);
      cachedBytes := cachedBytes - Size(cache[k]);
      cache := cache[k := v];
      cachedBytes := cachedBytes + Size(v);
      ghost var updated := Contents();
      ZipWithout(lruList, cache, k);
      Touch(k);
      assert Without(updated, k) == Without(was, k);
      assert Contents()[1..] == Without(was, k);
    }

    method Clear()
      modifies this
      ensures Valid() && Contents() == []
    {
      cache, lruList, cachedBytes := map[], [], 0;
    }
  }
}
