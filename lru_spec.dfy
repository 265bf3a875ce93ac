/**
 * The abstract state of the LRU_TTL cache of src/index.ts and what each of
 * its operations does to it, as functions. The class in lru_ttl.dfy is proved
 * to change its state exactly as these functions say; the lemmas here state
 * what the cache promises about them.
 *
 * The state is the key index (entries), the recency list from the most
 * recently used key to the least recently used one (recency), and the three
 * running counters. The counters are fields in their own right, as in the
 * source: Counted says when they agree with the entries and the list.
 */
module LruSpec {
  import opened Js
  import opened Chain

  /** A validated limit: a positive integer or Infinity. */
  datatype Bound = Fin(n: int) | Inf

  /** `x > bound`, which never holds when the bound is Infinity. */
  predicate Exceeds(x: int, b: Bound) {
    b.Fin? && x > b.n
  }

  /** The data of a node (src/index.ts:38-49); the list pointers live in the class. */
  datatype Entry<V> = Entry(value: V, bytes: int, createdAt: int, lastAccess: int, isPermanent: bool)

  /** What an upsert callback returns synchronously (src/index.ts:23-27). */
  datatype UpsertResult<V> = UpsertResult(value: V, bytes: Option<int>, isPermanent: bool)

  datatype State<K, V> = State(entries: map<K, Entry<V>>, recency: seq<K>, tmpSize: int, tmpBytes: int, totalBytes: int)

  /** A new state and what the operation returned. */
  datatype Reply<K, V, T> = Reply(state: State<K, V>, result: T)

  function Last<K(!new)>(s: seq<K>): K
    requires s != []
  {
    s[|s| - 1]
  }

  /** s with k taken out. */
  function Without<K(==,!new)>(s: seq<K>, k: K): (r: seq<K>)
    ensures forall x :: x in r <==> x in s && x != k
    ensures |r| <= |s| && (k in s ==> |r| < |s|)
  {
    if s == [] then [] else (if s[0] == k then [] else [s[0]]) + Without(s[1..], k)
  }

  /** The list holds exactly the temporary entries, each once. */
  ghost predicate Linked<K(!new), V>(c: State<K, V>) {
    && Distinct(c.recency)
    && (forall i :: 0 <= i < |c.recency| ==> c.recency[i] in c.entries && !c.entries[c.recency[i]].isPermanent)
    && (forall k :: k in c.entries && !c.entries[k].isPermanent ==> k in c.recency)
  }

  function BytesAt<K(!new), V>(m: map<K, Entry<V>>, k: K): int {
    if k in m then m[k].bytes else 0
  }

  /** The bytes of the entries listed in s. */
  function ListBytes<K(!new), V>(m: map<K, Entry<V>>, s: seq<K>): int {
    if s == [] then 0 else BytesAt(m, s[0]) + ListBytes(m, s[1..])
  }

  /** The bytes of the entries whose keys are in ks. */
  ghost function BytesOf<K(!new), V>(m: map<K, Entry<V>>, ks: set<K>): int
    decreases ks
  {
    if ks == {} then 0 else var k :| k in ks; BytesAt(m, k) + BytesOf(m, ks - {k})
  }

  ghost function MapBytes<K(!new), V>(m: map<K, Entry<V>>): int {
    BytesOf(m, m.Keys)
  }

  /** The running counters agree with the entries and the list. */
  ghost predicate Counted<K(!new), V>(c: State<K, V>) {
    && c.tmpSize == |c.recency|
    && c.tmpBytes == ListBytes(c.entries, c.recency)
    && c.totalBytes == MapBytes(c.entries)
  }

  /** The representation invariant of the cache. */
  ghost predicate Valid<K(!new), V>(c: State<K, V>) {
    Linked(c) && Counted(c)
  }

  /** A new cache: nothing stored, the cache points at itself, every counter 0 (src/index.ts:55-74). */
  function Empty<K(!new), V>(): State<K, V> {
    State(map[], [], 0, 0, 0)
  }

  // ---------------------------------------------------------------------------
  // Operations

  /** _delete (src/index.ts:270-286). */
  function Remove<K(!new), V>(c: State<K, V>, key: K): (r: State<K, V>)
    requires key in c.entries
    ensures r.entries == c.entries - {key}
    ensures Linked(c) ==> Linked(r)
    ensures Linked(c) && !c.entries[key].isPermanent ==> |r.recency| == |c.recency| - 1
  {
    var e := c.entries[key];
    var r := if e.isPermanent then
      c.(entries := c.entries - {key}, totalBytes := c.totalBytes - e.bytes)
    else
      c.(entries := c.entries - {key}, recency := Without(c.recency, key),
         tmpBytes := c.tmpBytes - e.bytes, tmpSize := c.tmpSize - 1, totalBytes := c.totalBytes - e.bytes);
    RemoveKeepsLinked(c, key, r);
    r
  }

  /** The insertion part of _set (src/index.ts:157-180): a fresh node, at the head of the list if temporary. */
  function Insert<K(!new), V>(c: State<K, V>, key: K, value: V, bytes: int, isPermanent: bool, now: int): State<K, V> {
    var e := Entry(value, bytes, now, now, isPermanent);
    if isPermanent then
      c.(entries := c.entries[key := e], totalBytes := c.totalBytes + bytes)
    else
      c.(entries := c.entries[key := e], recency := [key] + c.recency,
         totalBytes := c.totalBytes + bytes, tmpSize := c.tmpSize + 1, tmpBytes := c.tmpBytes + bytes)
  }

  /** The count cap (src/index.ts:182-183): one eviction from the tail when the temporary count exceeds max. */
  function EvictCount<K(!new), V>(c: State<K, V>, max: Bound): State<K, V>
    requires Linked(c) && c.recency != []
  {
    if Exceeds(c.tmpSize, max) then Remove(c, Last(c.recency)) else c
  }

  /** The byte cap (src/index.ts:185-187): evictions from the tail while the temporary bytes exceed maxBytes. */
  function EvictBytes<K(!new), V>(c: State<K, V>, maxBytes: Bound): State<K, V>
    requires Linked(c)
    decreases |c.recency|
  {
    if Exceeds(c.tmpBytes, maxBytes) && c.recency != [] then
      EvictBytes(Remove(c, Last(c.recency)), maxBytes)
    else c
  }

  /** _set (src/index.ts:157-193) on a key that is not stored. */
  function SetNew<K(!new), V>(c: State<K, V>, key: K, value: V, bytes: int, isPermanent: bool, now: int, max: Bound, maxBytes: Bound): State<K, V>
    requires Linked(c) && key !in c.entries
  {
    var c1 := Insert(c, key, value, bytes, isPermanent, now);
    if isPermanent then c1
    else
      InsertKeepsLinked(c, key, value, bytes, isPermanent, now);
      EvictBytes(EvictCount(c1, max), maxBytes)
  }

  /** The test of src/index.ts:141: the stored item is identical (===) to the new one. */
  predicate SameItem<V(==)>(e: Entry<V>, value: V, bytes: int, isPermanent: bool) {
    e.value == value && e.bytes == bytes && e.isPermanent == isPermanent
  }

  /** set (src/index.ts:138-149). */
  function Set<K(!new), V(==)>(c: State<K, V>, key: K, value: V, bytes: int, isPermanent: bool, now: int, max: Bound, maxBytes: Bound): State<K, V>
    requires Linked(c)
  {
    if key in c.entries && SameItem(c.entries[key], value, bytes, isPermanent) then
      c.(entries := c.entries[key := c.entries[key].(lastAccess := now)])
    else
      SetNew(if key in c.entries then Remove(c, key) else c, key, value, bytes, isPermanent, now, max, maxBytes)
  }

  /** The key's node is the cache's _next. */
  predicate IsHead<K(==,!new), V>(c: State<K, V>, key: K) {
    c.recency != [] && c.recency[0] == key
  }

  /** A hit in get (src/index.ts:200-214): refresh lastAccess and bring a temporary entry to the head. */
  function Touch<K(!new), V>(c: State<K, V>, key: K, now: int): State<K, V>
    requires key in c.entries
  {
    var e := c.entries[key];
    var c1 := c.(entries := c.entries[key := e.(lastAccess := now)]);
    if !e.isPermanent && !IsHead(c, key) then c1.(recency := [key] + Without(c.recency, key)) else c1
  }

  /** get(key, upsert) with a synchronous callback (src/index.ts:196-235); the callback is absent or a function. */
  function Get<K(!new), V>(c: State<K, V>, key: K, upsert: bool, callback: Option<K -> UpsertResult<V>>, now: int, max: Bound, maxBytes: Bound)
    : Reply<K, V, Result<Option<V>>>
    requires Linked(c)
  {
    if key in c.entries then Reply(Touch(c, key, now), Ok(Some(c.entries[key].value)))
    else if !upsert then Reply(c, Ok(None))
    else if callback.None? then Reply(c, Throws("Missing upsert callback!"))
    else
      var u := callback.value(key);
      Reply(SetNew(c, key, u.value, u.bytes.GetOr(0), u.isPermanent, now, max, maxBytes), Ok(None))
  }

  /** peek (src/index.ts:237-239). */
  function Peek<K(!new), V>(c: State<K, V>, key: K): Option<V> {
    if key in c.entries then Some(c.entries[key].value) else None
  }

  /** pop (src/index.ts:242-249). */
  function Pop<K(!new), V>(c: State<K, V>): Reply<K, V, Option<V>>
    requires Linked(c)
  {
    if c.recency == [] then Reply(c, None)
    else Reply(Remove(c, Last(c.recency)), Some(c.entries[Last(c.recency)].value))
  }

  /** getLRU (src/index.ts:252-254). */
  function LeastRecent<K(!new), V>(c: State<K, V>): Option<V>
    requires Linked(c)
  {
    if c.recency == [] then None else Some(c.entries[Last(c.recency)].value)
  }

  /** delete (src/index.ts:262-267). */
  function Delete<K(!new), V>(c: State<K, V>, key: K): State<K, V> {
    if key in c.entries then Remove(c, key) else c
  }

  /**
   * clearTemp as written (src/index.ts:289-301): the walk starts at the tail
   * and follows _next, which leads back to the cache at once, so only the
   * least recently used key leaves the index; the list and the counters are
   * reset all the same.
   */
  function ClearTemp<K(!new), V>(c: State<K, V>): State<K, V> {
    State(if c.recency == [] then c.entries else c.entries - {Last(c.recency)},
          [], 0, 0, c.totalBytes - c.tmpBytes)
  }

  /** clearAll (src/index.ts:304-308). */
  function ClearAll<K(!new), V>(c: State<K, V>): State<K, V> {
    State(map[], [], 0, 0, 0)
  }

  /** `lastAccess < Date.now() - ttl`; with an infinite ttl the threshold is -Infinity. */
  predicate Expired<V>(e: Entry<V>, now: int, ttl: Bound) {
    ttl.Fin? && e.lastAccess < now - ttl.n
  }

  /** How many keys, counted from the tail, are expired before the first live one. */
  function ExpiredRun<K(!new), V>(m: map<K, Entry<V>>, s: seq<K>, now: int, ttl: Bound): (n: nat)
    ensures n <= |s|
  {
    if s != [] && Last(s) in m && Expired(m[Last(s)], now, ttl) then
      1 + ExpiredRun(m, s[..|s| - 1], now, ttl)
    else 0
  }

  function SetOf<K(!new)>(s: seq<K>): set<K> {
    set k | k in s
  }

  /** _ttlClean (src/index.ts:346-371) at time now, as written. */
  function Sweep<K(!new), V>(c: State<K, V>, now: int, ttl: Bound): State<K, V> {
    var n := ExpiredRun(c.entries, c.recency, now, ttl);
    var keep, gone := c.recency[..|c.recency| - n], c.recency[|c.recency| - n..];
    var entries := c.entries - SetOf(gone);
    if n == |c.recency| then
      var total := c.totalBytes - ListBytes(c.entries, gone);
      State(entries, [], 0, 0, if total < 0 then 0 else total)
    else
      c.(entries := entries, recency := keep)
  }

  // ---------------------------------------------------------------------------
  // Sequences

  lemma {:induction false} WithoutAbsent<K(!new)>(s: seq<K>, k: K)
    requires k !in s
    ensures Without(s, k) == s
  {
    if s != [] {
      WithoutAbsent(s[1..], k);
    }
  }

  /** In a list without repetitions, taking out the key at i removes exactly position i. */
  lemma {:induction false} WithoutAt<K(!new)>(s: seq<K>, i: int)
    requires Distinct(s) && 0 <= i < |s|
    ensures Without(s, s[i]) == s[..i] + s[i + 1..]
  {
    if i == 0 {
      assert s[0] !in s[1..];
      WithoutAbsent(s[1..], s[0]);
    } else {
      assert Distinct(s[1..]);
      WithoutAt(s[1..], i - 1);
      assert s[1..][i - 1] == s[i];
      assert s[1..][..i - 1] == s[1..i];
      assert s[1..][i..] == s[i + 1..];
      assert s[..i] == [s[0]] + s[1..i];
    }
  }

  /** Removing the temporary entry listed at i: the list loses exactly position i. */
  lemma RemoveAt<K(!new), V>(c: State<K, V>, i: int)
    requires Linked(c) && 0 <= i < |c.recency|
    ensures var e := c.entries[c.recency[i]];
      Remove(c, c.recency[i]) == State(c.entries - {c.recency[i]}, c.recency[..i] + c.recency[i + 1..],
                                       c.tmpSize - 1, c.tmpBytes - e.bytes, c.totalBytes - e.bytes)
  {
    WithoutAt(c.recency, i);
  }

  lemma DistinctWithout<K(!new)>(s: seq<K>, k: K)
    requires Distinct(s)
    ensures Distinct(Without(s, k))
  {
    if k in s {
      var i :| 0 <= i < |s| && s[i] == k;
      WithoutAt(s, i);
      DistinctRemove(s, i);
    } else {
      WithoutAbsent(s, k);
    }
  }

  lemma DistinctCons<K(!new)>(k: K, s: seq<K>)
    requires Distinct(s) && k !in s
    ensures Distinct([k] + s)
  {
    var s' := [k] + s;
    forall x, y | 0 <= x < y < |s'| ensures s'[x] != s'[y] {
      assert s'[y] == s[y - 1];
      if x > 0 {
        assert s'[x] == s[x - 1];
      }
    }
  }

  lemma DistinctPrefix<K(!new)>(s: seq<K>, n: int)
    requires Distinct(s) && 0 <= n <= |s|
    ensures Distinct(s[..n]) && Distinct(s[n..])
  {
    forall x, y | 0 <= x < y < |s| - n ensures s[n..][x] != s[n..][y] {
      assert s[n..][x] == s[n + x] && s[n..][y] == s[n + y];
    }
  }

  // ---------------------------------------------------------------------------
  // Sums of bytes

  lemma {:induction false} ListBytesAppend<K(!new), V>(m: map<K, Entry<V>>, a: seq<K>, b: seq<K>)
    ensures ListBytes(m, a + b) == ListBytes(m, a) + ListBytes(m, b)
  {
    if a != [] {
      assert (a + b)[0] == a[0] && (a + b)[1..] == a[1..] + b;
      ListBytesAppend(m, a[1..], b);
    } else {
      assert a + b == b;
    }
  }

  /** ListBytes looks only at the entries it lists. */
  lemma {:induction false} ListBytesFrame<K(!new), V>(m: map<K, Entry<V>>, m': map<K, Entry<V>>, s: seq<K>)
    requires forall k :: k in s ==> BytesAt(m, k) == BytesAt(m', k)
    ensures ListBytes(m, s) == ListBytes(m', s)
  {
    if s != [] {
      ListBytesFrame(m, m', s[1..]);
    }
  }

  lemma {:induction false} ListBytesWithout<K(!new), V>(m: map<K, Entry<V>>, s: seq<K>, k: K)
    requires Distinct(s) && k in s
    ensures ListBytes(m, s) == ListBytes(m, Without(s, k)) + BytesAt(m, k)
  {
    var i :| 0 <= i < |s| && s[i] == k;
    WithoutAt(s, i);
    assert s == s[..i] + [k] + s[i + 1..];
    ListBytesAppend(m, s[..i] + [k], s[i + 1..]);
    ListBytesAppend(m, s[..i], [k]);
    ListBytesAppend(m, s[..i], s[i + 1..]);
  }

  /** The sum over a set does not depend on the order the elements are taken in. */
  lemma BytesOfRemove<K(!new), V>(m: map<K, Entry<V>>, ks: set<K>, k: K)
    requires k in ks
    ensures BytesOf(m, ks) == BytesAt(m, k) + BytesOf(m, ks - {k})
    decreases ks
  {
    var k' :| k' in ks && BytesOf(m, ks) == BytesAt(m, k') + BytesOf(m, ks - {k'});
    if k' != k {
      BytesOfRemove(m, ks - {k'}, k);
      BytesOfRemove(m, ks - {k}, k');
      assert ks - {k'} - {k} == ks - {k} - {k'};
    }
  }

  lemma {:induction false} BytesOfFrame<K(!new), V>(m: map<K, Entry<V>>, m': map<K, Entry<V>>, ks: set<K>)
    requires forall k :: k in ks ==> BytesAt(m, k) == BytesAt(m', k)
    ensures BytesOf(m, ks) == BytesOf(m', ks)
    decreases ks
  {
    if ks != {} {
      var k :| k in ks;
      BytesOfRemove(m, ks, k);
      BytesOfRemove(m', ks, k);
      BytesOfFrame(m, m', ks - {k});
    }
  }

  /** Removing a key takes its bytes off the total. */
  lemma MapBytesRemove<K(!new), V>(m: map<K, Entry<V>>, k: K)
    requires k in m
    ensures MapBytes(m) == m[k].bytes + MapBytes(m - {k})
  {
    BytesOfRemove(m, m.Keys, k);
    assert (m - {k}).Keys == m.Keys - {k};
    BytesOfFrame(m, m - {k}, m.Keys - {k});
  }

  /** Storing an entry under a key changes the total by the difference of the bytes. */
  lemma MapBytesUpdate<K(!new), V>(m: map<K, Entry<V>>, k: K, e: Entry<V>)
    ensures MapBytes(m[k := e]) == MapBytes(m - {k}) + e.bytes
  {
    MapBytesRemove(m[k := e], k);
    assert m[k := e] - {k} == m - {k};
  }

  /** Removing the keys of a list takes their bytes off the total. */
  lemma {:induction false} MapBytesRemoveAll<K(!new), V>(m: map<K, Entry<V>>, s: seq<K>)
    requires Distinct(s) && forall k :: k in s ==> k in m
    ensures MapBytes(m) == MapBytes(m - SetOf(s)) + ListBytes(m, s)
  {
    if s != [] {
      var k := s[0];
      assert Distinct(s[1..]) && k !in s[1..];
      MapBytesRemove(m, k);
      MapBytesRemoveAll(m - {k}, s[1..]);
      assert SetOf(s) == {k} + SetOf(s[1..]);
      assert (m - {k}) - SetOf(s[1..]) == m - SetOf(s);
      ListBytesFrame(m - {k}, m, s[1..]);
    } else {
      assert m - SetOf(s) == m;
    }
  }

  // ---------------------------------------------------------------------------
  // The invariant

  lemma RemoveKeepsLinked<K(!new), V>(c: State<K, V>, key: K, r: State<K, V>)
    requires key in c.entries
    requires r.entries == c.entries - {key}
    requires r.recency == if c.entries[key].isPermanent then c.recency else Without(c.recency, key)
    ensures Linked(c) ==> Linked(r)
    ensures Linked(c) && !c.entries[key].isPermanent ==> |r.recency| == |c.recency| - 1
  {
    if Linked(c) {
      var s, s' := c.recency, r.recency;
      if c.entries[key].isPermanent {
        assert key !in s;
      } else {
        var i :| 0 <= i < |s| && s[i] == key;
        WithoutAt(s, i);
        DistinctRemove(s, i);
        forall j | 0 <= j < |s'| ensures s'[j] in r.entries && !r.entries[s'[j]].isPermanent {
          assert s'[j] == s[if j < i then j else j + 1];
        }
        forall k | k in r.entries && !r.entries[k].isPermanent ensures k in s' {
          assert k in s && k != key;
        }
      }
    }
  }

  lemma InsertKeepsLinked<K(!new), V>(c: State<K, V>, key: K, value: V, bytes: int, isPermanent: bool, now: int)
    requires Linked(c) && key !in c.entries
    ensures Linked(Insert(c, key, value, bytes, isPermanent, now))
    ensures !isPermanent ==> Insert(c, key, value, bytes, isPermanent, now).recency != []
  {
    if !isPermanent {
      DistinctCons(key, c.recency);
    }
  }

  /** _delete keeps the invariant. */
  lemma RemoveValid<K(!new), V>(c: State<K, V>, key: K)
    requires Valid(c) && key in c.entries
    ensures Valid(Remove(c, key))
  {
    var e := c.entries[key];
    MapBytesRemove(c.entries, key);
    if !e.isPermanent {
      ListBytesWithout(c.entries, c.recency, key);
      ListBytesFrame(c.entries, c.entries - {key}, Without(c.recency, key));
    } else {
      ListBytesFrame(c.entries, c.entries - {key}, c.recency);
    }
  }

  /** Inserting a fresh node keeps the invariant. */
  lemma InsertValid<K(!new), V>(c: State<K, V>, key: K, value: V, bytes: int, isPermanent: bool, now: int)
    requires Valid(c) && key !in c.entries
    ensures Valid(Insert(c, key, value, bytes, isPermanent, now))
  {
    var e := Entry(value, bytes, now, now, isPermanent);
    InsertKeepsLinked(c, key, value, bytes, isPermanent, now);
    MapBytesUpdate(c.entries, key, e);
    assert c.entries - {key} == c.entries;
    ListBytesFrame(c.entries, c.entries[key := e], c.recency);
  }

  lemma {:induction false} EvictBytesValid<K(!new), V>(c: State<K, V>, maxBytes: Bound)
    requires Valid(c)
    ensures Valid(EvictBytes(c, maxBytes))
    decreases |c.recency|
  {
    if Exceeds(c.tmpBytes, maxBytes) && c.recency != [] {
      RemoveValid(c, Last(c.recency));
      EvictBytesValid(Remove(c, Last(c.recency)), maxBytes);
    }
  }

  /** Inserting an absent key keeps the invariant. */
  lemma SetNewValid<K(!new), V>(c: State<K, V>, key: K, value: V, bytes: int, isPermanent: bool, now: int, max: Bound, maxBytes: Bound)
    requires Valid(c) && key !in c.entries
    ensures Valid(SetNew(c, key, value, bytes, isPermanent, now, max, maxBytes))
  {
    var c1 := Insert(c, key, value, bytes, isPermanent, now);
    InsertValid(c, key, value, bytes, isPermanent, now);
    if !isPermanent {
      InsertKeepsLinked(c, key, value, bytes, isPermanent, now);
      if Exceeds(c1.tmpSize, max) {
        RemoveValid(c1, Last(c1.recency));
      }
      EvictBytesValid(EvictCount(c1, max), maxBytes);
    }
  }

  /** set keeps the invariant. */
  lemma SetValid<K(!new), V>(c: State<K, V>, key: K, value: V, bytes: int, isPermanent: bool, now: int, max: Bound, maxBytes: Bound)
    requires Valid(c)
    ensures Valid(Set(c, key, value, bytes, isPermanent, now, max, maxBytes))
  {
    if key in c.entries && SameItem(c.entries[key], value, bytes, isPermanent) {
      var e := c.entries[key];
      MapBytesUpdate(c.entries, key, e.(lastAccess := now));
      MapBytesRemove(c.entries, key);
      ListBytesFrame(c.entries, c.entries[key := e.(lastAccess := now)], c.recency);
    } else if key in c.entries {
      RemoveValid(c, key);
      SetNewValid(Remove(c, key), key, value, bytes, isPermanent, now, max, maxBytes);
    } else {
      SetNewValid(c, key, value, bytes, isPermanent, now, max, maxBytes);
    }
  }

  lemma SetOfAppend<K(!new)>(a: seq<K>, b: seq<K>)
    ensures SetOf(a + b) == SetOf(a) + SetOf(b)
  {
  }

  lemma MapMinusUnion<K(!new), V>(m: map<K, V>, a: set<K>, b: set<K>)
    ensures (m - a) - b == m - (a + b)
  {
  }

  /** Taking out the last key and then a suffix of the rest takes out a suffix of the whole. */
  lemma SuffixStep<K(!new), V>(m0: map<K, V>, m1: map<K, V>, m2: map<K, V>, s: seq<K>, k: int)
    requires s != [] && 0 <= k <= |s| - 1
    requires m1 == m0 - {Last(s)}
    requires m2 == m1 - SetOf(s[..|s| - 1][k..])
    ensures m2 == m0 - SetOf(s[k..])
  {
    assert s[k..] == s[..|s| - 1][k..] + [Last(s)];
    SetOfAppend(s[..|s| - 1][k..], [Last(s)]);
    assert SetOf([Last(s)]) == {Last(s)};
    MapMinusUnion(m0, {Last(s)}, SetOf(s[..|s| - 1][k..]));
  }

  /** Removing the tail of the list. */
  lemma RemoveTail<K(!new), V>(c: State<K, V>)
    requires Linked(c) && c.recency != []
    ensures var last := Last(c.recency);
      && last in c.entries && !c.entries[last].isPermanent
      && var r := Remove(c, last);
      && Linked(r)
      && r.recency == c.recency[..|c.recency| - 1]
      && r.entries == c.entries - {last}
      && r.tmpSize == c.tmpSize - 1
      && r.tmpBytes == c.tmpBytes - c.entries[last].bytes
      && r.totalBytes == c.totalBytes - c.entries[last].bytes
  {
    WithoutAt(c.recency, |c.recency| - 1);
  }

  /** Changing an entry without changing its permanence keeps the list in agreement. */
  lemma LinkedUpdate<K(!new), V>(c: State<K, V>, key: K, e: Entry<V>)
    requires Linked(c) && key in c.entries && e.isPermanent == c.entries[key].isPermanent
    ensures Linked(c.(entries := c.entries[key := e]))
  {
  }

  /** Reordering the list keeps it in agreement. */
  lemma LinkedReorder<K(!new), V>(c: State<K, V>, s: seq<K>)
    requires Linked(c) && Distinct(s) && (forall x :: x in s <==> x in c.recency)
    ensures Linked(c.(recency := s))
  {
    forall i | 0 <= i < |s| ensures s[i] in c.entries && !c.entries[s[i]].isPermanent {
      assert s[i] in s;
      var j :| 0 <= j < |c.recency| && c.recency[j] == s[i];
    }
  }

  /** Moving a listed key to the front. */
  lemma MoveToFront<K(!new)>(s: seq<K>, k: K)
    requires Distinct(s) && k in s
    ensures var s' := [k] + Without(s, k);
      && Distinct(s') && |s'| == |s|
      && (forall x :: x in s' <==> x in s)
      && Without(s', k) == Without(s, k)
  {
    var w := Without(s, k);
    var i :| 0 <= i < |s| && s[i] == k;
    WithoutAt(s, i);
    DistinctWithout(s, k);
    DistinctCons(k, w);
    assert ([k] + w)[1..] == w;
    WithoutAbsent(w, k);
  }

  // ---------------------------------------------------------------------------
  // What the operations promise

  /** Byte eviction cuts the list after a prefix, counting what it cuts. */
  lemma {:induction false} EvictBytesTrims<K(!new), V>(c: State<K, V>, maxBytes: Bound)
    requires Linked(c)
    ensures var r := EvictBytes(c, maxBytes);
      && Linked(r)
      && |r.recency| <= |c.recency|
      && r.recency == c.recency[..|r.recency|]
      && r.tmpSize == c.tmpSize - (|c.recency| - |r.recency|)
      && r.totalBytes - r.tmpBytes == c.totalBytes - c.tmpBytes
      && (r.recency == [] || !Exceeds(r.tmpBytes, maxBytes))
    decreases |c.recency|
  {
    if Exceeds(c.tmpBytes, maxBytes) && c.recency != [] {
      var c' := Remove(c, Last(c.recency));
      RemoveTail(c);
      EvictBytesTrims(c', maxBytes);
      var m := |EvictBytes(c', maxBytes).recency|;
      assert c'.recency[..m] == c.recency[..m];
    } else {
      assert c.recency[..|c.recency|] == c.recency;
    }
  }

  /** The keys byte eviction takes out of the index are exactly the ones it cuts from the list. */
  lemma {:induction false} EvictBytesDrops<K(!new), V>(c: State<K, V>, maxBytes: Bound)
    requires Linked(c)
    ensures var r := EvictBytes(c, maxBytes);
      |r.recency| <= |c.recency| && r.entries == c.entries - SetOf(c.recency[|r.recency|..])
    decreases |c.recency|
  {
    if Exceeds(c.tmpBytes, maxBytes) && c.recency != [] {
      var c' := Remove(c, Last(c.recency));
      RemoveTail(c);
      EvictBytesDrops(c', maxBytes);
      var r := EvictBytes(c', maxBytes);
      SuffixStep(c.entries, c'.entries, r.entries, c.recency, |r.recency|);
    } else {
      assert SetOf(c.recency[|c.recency|..]) == {};
    }
  }

  /**
   * The count cap on a fresh temporary key: exactly the tail leaves when the
   * count exceeds max, and since max is at least 1 the new head stays.
   */
  lemma CountCapSparesNewHead<K(!new), V>(c: State<K, V>, key: K, value: V, bytes: int, now: int, max: Bound)
    requires Linked(c) && key !in c.entries && c.tmpSize == |c.recency|
    requires max.Inf? || max.n >= 1
    ensures Linked(Insert(c, key, value, bytes, false, now)) && Insert(c, key, value, bytes, false, now).recency != []
    ensures var c1 := Insert(c, key, value, bytes, false, now);
      var r := EvictCount(c1, max);
      && IsHead(r, key) && key in r.entries && r.entries[key] == Entry(value, bytes, now, now, false)
      && (Exceeds(c1.tmpSize, max) ==> r.entries == c1.entries - {Last(c.recency)} && r.recency == [key] + c.recency[..|c.recency| - 1])
      && (!Exceeds(c1.tmpSize, max) ==> r == c1)
  {
    InsertKeepsLinked(c, key, value, bytes, false, now);
    var c1 := Insert(c, key, value, bytes, false, now);
    if Exceeds(c1.tmpSize, max) {
      var n := |c1.recency|;
      assert n >= 2 && Last(c1.recency) == Last(c.recency);
      RemoveTail(c1);
      assert c1.recency[..n - 1] == [key] + c.recency[..|c.recency| - 1];
    }
  }

  /** After the count cap, the fresh key, if still stored, heads the list. */
  lemma EvictCountKeepsHead<K(!new), V>(c1: State<K, V>, key: K, max: Bound)
    requires Linked(c1) && IsHead(c1, key)
    ensures var c2 := EvictCount(c1, max);
      && Linked(c2)
      && (key in c2.entries ==> IsHead(c2, key) && c2.entries[key] == c1.entries[key])
      && c2.entries.Keys <= c1.entries.Keys
      && (forall k :: k in c2.entries ==> c2.entries[k] == c1.entries[k])
      && (forall k :: k in c1.entries && c1.entries[k].isPermanent ==> k in c2.entries)
      && c2.tmpSize <= c1.tmpSize
  {
    var n := |c1.recency|;
    if Exceeds(c1.tmpSize, max) && Last(c1.recency) != key {
      assert n >= 2;
      WithoutAt(c1.recency, n - 1);
      assert Remove(c1, Last(c1.recency)).recency == c1.recency[..n - 1];
    }
  }

  /** Dropping listed keys never drops a permanent entry. */
  lemma DropsOnlyTemporary<K(!new), V>(c: State<K, V>, dropped: seq<K>, m: map<K, Entry<V>>)
    requires Linked(c) && (forall k :: k in dropped ==> k in c.recency)
    requires m == c.entries - SetOf(dropped)
    ensures forall k :: k in c.entries && c.entries[k].isPermanent ==> k in m
  {
    forall k | k in c.entries && c.entries[k].isPermanent ensures k in m {
      assert k !in c.recency;
      assert k !in dropped;
    }
  }

  /** Both caps after a fresh temporary head: what survives, and where the head ends up. */
  lemma EvictAfterInsert<K(!new), V>(c1: State<K, V>, key: K, max: Bound, maxBytes: Bound)
    requires Linked(c1) && IsHead(c1, key)
    ensures EvictCount(c1, max).recency != [] ==> Linked(EvictCount(c1, max))
    ensures var r := EvictBytes(EvictCount(c1, max), maxBytes);
      && Linked(r)
      && (key in r.entries ==> IsHead(r, key) && r.entries[key] == c1.entries[key])
      && (forall k :: k in r.entries ==> k in c1.entries && r.entries[k] == c1.entries[k])
      && (forall k :: k in c1.entries && c1.entries[k].isPermanent ==> k in r.entries)
      && (r.recency == [] || !Exceeds(r.tmpBytes, maxBytes))
  {
    EvictCountKeepsHead(c1, key, max);
    var c2 := EvictCount(c1, max);
    EvictBytesTrims(c2, maxBytes);
    EvictBytesDrops(c2, maxBytes);
    var r := EvictBytes(c2, maxBytes);
    var gone := c2.recency[|r.recency|..];
    forall k | k in gone ensures k in c2.recency {
      var i :| 0 <= i < |gone| && gone[i] == k;
      assert k == c2.recency[|r.recency| + i];
    }
    DropsOnlyTemporary(c2, gone, r.entries);
    if key in r.entries {
      assert key in r.recency;
      assert r.recency[0] == c2.recency[0];
    }
  }

  /** _set on an absent key: where the fresh entry ends up and what happens to the others. */
  lemma SetNewPlaces<K(!new), V>(c: State<K, V>, key: K, value: V, bytes: int, isPermanent: bool, now: int, max: Bound, maxBytes: Bound)
    requires Linked(c) && key !in c.entries
    ensures var r := SetNew(c, key, value, bytes, isPermanent, now, max, maxBytes);
      && Linked(r)
      && (key in r.entries ==> r.entries[key] == Entry(value, bytes, now, now, isPermanent))
      && (isPermanent ==> key in r.entries && r.recency == c.recency && r.tmpSize == c.tmpSize
                          && r.tmpBytes == c.tmpBytes && r.totalBytes == c.totalBytes + bytes)
      && (!isPermanent && key in r.entries ==> IsHead(r, key))
      && (!isPermanent ==> r.recency == [] || !Exceeds(r.tmpBytes, maxBytes))
      && (forall k :: k in r.entries && k != key ==> k in c.entries && r.entries[k] == c.entries[k])
      && (forall k :: k in c.entries && c.entries[k].isPermanent ==> k in r.entries)
  {
    if isPermanent {
      InsertKeepsLinked(c, key, value, bytes, true, now);
      assert SetNew(c, key, value, bytes, true, now, max, maxBytes) == Insert(c, key, value, bytes, true, now);
    } else {
      SetNewTemporary(c, key, value, bytes, now, max, maxBytes);
    }
  }

  /** _set of a temporary entry on an absent key: the caps keep the fresh key at the head if at all, and drop only temporary entries. */
  lemma SetNewTemporary<K(!new), V>(c: State<K, V>, key: K, value: V, bytes: int, now: int, max: Bound, maxBytes: Bound)
    requires Linked(c) && key !in c.entries
    ensures var r := SetNew(c, key, value, bytes, false, now, max, maxBytes);
      && Linked(r)
      && (key in r.entries ==> r.entries[key] == Entry(value, bytes, now, now, false) && IsHead(r, key))
      && (r.recency == [] || !Exceeds(r.tmpBytes, maxBytes))
      && (forall k :: k in r.entries && k != key ==> k in c.entries && r.entries[k] == c.entries[k])
      && (forall k :: k in c.entries && c.entries[k].isPermanent ==> k in r.entries)
  {
    InsertKeepsLinked(c, key, value, bytes, false, now);
    var c1 := Insert(c, key, value, bytes, false, now);
    EvictAfterInsert(c1, key, max, maxBytes);
    var r := EvictBytes(EvictCount(c1, max), maxBytes);
    assert SetNew(c, key, value, bytes, false, now, max, maxBytes) == r;
    forall k | k in c.entries && c.entries[k].isPermanent
      ensures k in r.entries
    {
      assert c1.entries[k] == c.entries[k];
    }
  }

  /** The temporary count never rises above max across set when it was within max before. */
  lemma SetKeepsCountCap<K(!new), V>(c: State<K, V>, key: K, value: V, bytes: int, isPermanent: bool, now: int, max: Bound, maxBytes: Bound)
    requires Linked(c) && !Exceeds(c.tmpSize, max)
    ensures !Exceeds(Set(c, key, value, bytes, isPermanent, now, max, maxBytes).tmpSize, max)
  {
    if !(key in c.entries && SameItem(c.entries[key], value, bytes, isPermanent)) && !isPermanent {
      var c0 := if key in c.entries then Remove(c, key) else c;
      InsertKeepsLinked(c0, key, value, bytes, isPermanent, now);
      var c1 := Insert(c0, key, value, bytes, isPermanent, now);
      EvictBytesTrims(EvictCount(c1, max), maxBytes);
    }
  }

  /** Byte cap: after inserting a temporary entry the temporary bytes are within maxBytes, or the list is empty. */
  lemma SetKeepsByteCap<K(!new), V>(c: State<K, V>, key: K, value: V, bytes: int, isPermanent: bool, now: int, max: Bound, maxBytes: Bound)
    requires Linked(c) && !Exceeds(c.tmpBytes, maxBytes)
    ensures var r := Set(c, key, value, bytes, isPermanent, now, max, maxBytes);
      !isPermanent ==> r.recency == [] || !Exceeds(r.tmpBytes, maxBytes)
  {
    if !(key in c.entries && SameItem(c.entries[key], value, bytes, isPermanent)) {
      var c0 := if key in c.entries then Remove(c, key) else c;
      SetNewPlaces(c0, key, value, bytes, isPermanent, now, max, maxBytes);
    }
  }

  /** An identical re-set only refreshes lastAccess: list, counters and every other entry stay. */
  lemma SetSameRefreshes<K(!new), V>(c: State<K, V>, key: K, value: V, bytes: int, isPermanent: bool, now: int, max: Bound, maxBytes: Bound)
    requires Linked(c) && key in c.entries && SameItem(c.entries[key], value, bytes, isPermanent)
    ensures var r := Set(c, key, value, bytes, isPermanent, now, max, maxBytes);
      && r.recency == c.recency && r.tmpSize == c.tmpSize && r.tmpBytes == c.tmpBytes && r.totalBytes == c.totalBytes
      && r.entries.Keys == c.entries.Keys
      && r.entries[key] == c.entries[key].(lastAccess := now)
      && (forall k :: k in c.entries && k != key ==> r.entries[k] == c.entries[k])
  {
  }

  /** Any other set stores a fresh entry, at the head of the list when temporary. */
  lemma SetReplaces<K(!new), V>(c: State<K, V>, key: K, value: V, bytes: int, isPermanent: bool, now: int, max: Bound, maxBytes: Bound)
    requires Linked(c) && !(key in c.entries && SameItem(c.entries[key], value, bytes, isPermanent))
    ensures var r := Set(c, key, value, bytes, isPermanent, now, max, maxBytes);
      && Linked(r)
      && (key in r.entries ==> r.entries[key] == Entry(value, bytes, now, now, isPermanent))
      && (isPermanent ==> key in r.entries && key !in r.recency)
      && (!isPermanent && key in r.entries ==> IsHead(r, key))
      && (forall k :: k in r.entries && k != key ==> k in c.entries && r.entries[k] == c.entries[k])
      && (forall k :: k in c.entries && k != key && c.entries[k].isPermanent ==> k in r.entries)
  {
    var c0 := if key in c.entries then Remove(c, key) else c;
    SetNewPlaces(c0, key, value, bytes, isPermanent, now, max, maxBytes);
  }

  /** The three paths of set. */
  lemma SetCases<K(!new), V>(c: State<K, V>, key: K, value: V, bytes: int, isPermanent: bool, now: int, max: Bound, maxBytes: Bound)
    requires Linked(c)
    ensures key in c.entries && SameItem(c.entries[key], value, bytes, isPermanent) ==>
      Set(c, key, value, bytes, isPermanent, now, max, maxBytes) == c.(entries := c.entries[key := c.entries[key].(lastAccess := now)])
    ensures key in c.entries && !SameItem(c.entries[key], value, bytes, isPermanent) ==>
      Set(c, key, value, bytes, isPermanent, now, max, maxBytes) == SetNew(Remove(c, key), key, value, bytes, isPermanent, now, max, maxBytes)
    ensures key !in c.entries ==> Set(c, key, value, bytes, isPermanent, now, max, maxBytes) == SetNew(c, key, value, bytes, isPermanent, now, max, maxBytes)
  {
  }

  /** One round of the byte cap: evict the tail while the bytes exceed the limit, else stop. */
  lemma EvictBytesStep<K(!new), V>(c: State<K, V>, maxBytes: Bound)
    requires Linked(c)
    ensures Exceeds(c.tmpBytes, maxBytes) && c.recency != [] ==> EvictBytes(c, maxBytes) == EvictBytes(Remove(c, Last(c.recency)), maxBytes)
    ensures !(Exceeds(c.tmpBytes, maxBytes) && c.recency != []) ==> EvictBytes(c, maxBytes) == c
  {
  }

  /** A hit refreshes lastAccess and moves a temporary key to the head, keeping the order of the others. */
  lemma {:induction false} TouchMovesToFront<K(!new), V>(c: State<K, V>, key: K, now: int)
    requires Linked(c) && key in c.entries
    ensures var r := Touch(c, key, now);
      && Linked(r)
      && r.entries == c.entries[key := c.entries[key].(lastAccess := now)]
      && r.tmpSize == c.tmpSize && r.tmpBytes == c.tmpBytes && r.totalBytes == c.totalBytes
      && (c.entries[key].isPermanent ==> r.recency == c.recency)
      && (!c.entries[key].isPermanent ==>
            IsHead(r, key) && |r.recency| == |c.recency| && Without(r.recency, key) == Without(c.recency, key))
  {
    var e := c.entries[key];
    LinkedUpdate(c, key, e.(lastAccess := now));
    if !e.isPermanent && !IsHead(c, key) {
      MoveToFront(c.recency, key);
      LinkedReorder(c.(entries := c.entries[key := e.(lastAccess := now)]), [key] + Without(c.recency, key));
    }
  }

  /** A hit keeps the counters in agreement. */
  lemma TouchValid<K(!new), V>(c: State<K, V>, key: K, now: int)
    requires Valid(c) && key in c.entries
    ensures Valid(Touch(c, key, now))
  {
    TouchMovesToFront(c, key, now);
    var e := c.entries[key];
    var m := c.entries[key := e.(lastAccess := now)];
    MapBytesUpdate(c.entries, key, e.(lastAccess := now));
    MapBytesRemove(c.entries, key);
    var r := Touch(c, key, now);
    ListBytesFrame(c.entries, m, r.recency);
    if !e.isPermanent && !IsHead(c, key) {
      var w := Without(c.recency, key);
      ListBytesWithout(c.entries, c.recency, key);
      assert ([key] + w)[1..] == w;
    }
  }

  /** get without upsert returns what peek returns and leaves every stored value as it was. */
  lemma GetAgreesWithPeek<K(!new), V>(c: State<K, V>, key: K, callback: Option<K -> UpsertResult<V>>, now: int, max: Bound, maxBytes: Bound)
    requires Linked(c)
    ensures var r := Get(c, key, false, callback, now, max, maxBytes);
      && Linked(r.state)
      && r.result == Ok(Peek(c, key))
      && (forall k :: Peek(r.state, k) == Peek(c, k))
      && (key !in c.entries ==> r.state == c)
  {
    if key in c.entries {
      TouchMovesToFront(c, key, now);
    }
  }

  /** A miss with upsert and no callback throws and changes nothing. */
  lemma GetMissingCallback<K(!new), V>(c: State<K, V>, key: K, now: int, max: Bound, maxBytes: Bound)
    requires Linked(c) && key !in c.entries
    ensures Get(c, key, true, None, now, max, maxBytes) == Reply(c, Throws("Missing upsert callback!"))
  {
  }

  /** get keeps the invariant on every path. */
  lemma GetValid<K(!new), V>(c: State<K, V>, key: K, upsert: bool, callback: Option<K -> UpsertResult<V>>, now: int, max: Bound, maxBytes: Bound)
    requires Valid(c)
    ensures Valid(Get(c, key, upsert, callback, now, max, maxBytes).state)
  {
    if key in c.entries {
      TouchValid(c, key, now);
    } else if upsert && callback.Some? {
      var u := callback.value(key);
      SetNewValid(c, key, u.value, u.bytes.GetOr(0), u.isPermanent, now, max, maxBytes);
    }
  }

  /**
   * get(key, true) as written: on a miss served synchronously by the
   * callback the call returns undefined, yet the value is stored whenever it
   * stays: always for a permanent entry, and for a temporary one at least
   * when the cache was empty and the entry alone fits both caps.
   */
  lemma UpsertReturnsNothing<K(!new), V>(c: State<K, V>, key: K, callback: K -> UpsertResult<V>, now: int, max: Bound, maxBytes: Bound)
    requires Linked(c) && key !in c.entries
    ensures var r := Get(c, key, true, Some(callback), now, max, maxBytes);
      && r.result == Ok(None)
      && (key in r.state.entries ==> Peek(r.state, key) == Some(callback(key).value))
      && (callback(key).isPermanent ==> key in r.state.entries)
      && (c == Empty() && !Exceeds(1, max) && !Exceeds(callback(key).bytes.GetOr(0), maxBytes) ==> key in r.state.entries)
  {
    var u := callback(key);
    SetNewPlaces(c, key, u.value, u.bytes.GetOr(0), u.isPermanent, now, max, maxBytes);
    if c == Empty() && !u.isPermanent {
      var c1 := Insert(c, key, u.value, u.bytes.GetOr(0), false, now);
      assert c1.recency == [key] && c1.tmpSize == 1 && c1.tmpBytes == u.bytes.GetOr(0);
    }
  }

  /** get with the synchronous upsert path returning the value it stored. */
  function GetFixed<K(!new), V>(c: State<K, V>, key: K, upsert: bool, callback: Option<K -> UpsertResult<V>>, now: int, max: Bound, maxBytes: Bound)
    : Reply<K, V, Result<Option<V>>>
    requires Linked(c)
  {
    var r := Get(c, key, upsert, callback, now, max, maxBytes);
    if key !in c.entries && upsert && callback.Some? then Reply(r.state, Ok(Some(callback.value(key).value))) else r
  }

  /** The corrected get returns a value whenever it does not throw on upsert, and it is the stored value whenever the key stays. */
  lemma GetFixedReturnsStored<K(!new), V>(c: State<K, V>, key: K, callback: Option<K -> UpsertResult<V>>, now: int, max: Bound, maxBytes: Bound)
    requires Linked(c)
    ensures var r := GetFixed(c, key, true, callback, now, max, maxBytes);
      && (r.result.Ok? <==> key in c.entries || callback.Some?)
      && (r.result.Ok? ==> r.result.value.Some?)
      && (r.result.Ok? && key in r.state.entries ==> Peek(r.state, key) == r.result.value)
      && r.state == Get(c, key, true, callback, now, max, maxBytes).state
  {
    if key in c.entries {
      TouchMovesToFront(c, key, now);
    } else if callback.Some? {
      var u := callback.value(key);
      SetNewPlaces(c, key, u.value, u.bytes.GetOr(0), u.isPermanent, now, max, maxBytes);
    }
  }

  /** pop takes the least recently used temporary entry and returns its value; getLRU names it without removing it. */
  lemma PopRemovesLeastRecent<K(!new), V>(c: State<K, V>)
    requires Linked(c)
    ensures var r := Pop(c);
      && Linked(r.state)
      && r.result == LeastRecent(c)
      && (c.recency == [] ==> r.state == c && r.result == None)
      && (c.recency != [] ==> r.state.entries == c.entries - {Last(c.recency)}
                              && r.state.recency == c.recency[..|c.recency| - 1]
                              && !c.entries[Last(c.recency)].isPermanent)
  {
    if c.recency != [] {
      WithoutAt(c.recency, |c.recency| - 1);
    }
  }

  lemma PopValid<K(!new), V>(c: State<K, V>)
    requires Valid(c)
    ensures Valid(Pop(c).state)
  {
    if c.recency != [] {
      RemoveValid(c, Last(c.recency));
    }
  }

  /** delete takes the key out and touches no other key; an absent key is a no-op. */
  lemma DeleteRemoves<K(!new), V>(c: State<K, V>, key: K)
    requires Linked(c)
    ensures var r := Delete(c, key);
      && Linked(r)
      && r.entries == c.entries - {key}
      && Peek(r, key) == None
      && (forall k :: k != key ==> Peek(r, k) == Peek(c, k))
      && (key !in c.entries ==> r == c)
  {
  }

  lemma DeleteValid<K(!new), V>(c: State<K, V>, key: K)
    requires Valid(c)
    ensures Valid(Delete(c, key))
  {
    if key in c.entries {
      RemoveValid(c, key);
    }
  }

  /** clearAll leaves the state of a new cache. */
  lemma ClearAllEmpties<K(!new), V>(c: State<K, V>)
    ensures ClearAll(c) == Empty() && Valid(ClearAll(c))
  {
    var m: map<K, Entry<V>> := map[];
    assert m.Keys == {};
  }

  /**
   * clearTemp as written: with two or more temporary entries, the most
   * recently used one stays in the index while the list is emptied.
   */
  lemma ClearTempLeavesTemporary<K(!new), V>(c: State<K, V>)
    requires Linked(c) && |c.recency| >= 2
    ensures var r := ClearTemp(c);
      && c.recency[0] in r.entries && !r.entries[c.recency[0]].isPermanent
      && r.recency == [] && r.tmpSize == 0
      && !Linked(r)
  {
    assert c.recency[0] != c.recency[|c.recency| - 1];
  }

  /** clearTemp with the walk following _prev: every temporary entry leaves the index. */
  function ClearTempFixed<K(!new), V>(c: State<K, V>): State<K, V> {
    State(map k | k in c.entries && c.entries[k].isPermanent :: c.entries[k], [], 0, 0, c.totalBytes - c.tmpBytes)
  }

  /** The corrected clearTemp keeps exactly the permanent entries and the invariant. */
  lemma ClearTempFixedValid<K(!new), V>(c: State<K, V>)
    requires Valid(c)
    ensures var r := ClearTempFixed(c);
      && Valid(r)
      && (forall k :: k in r.entries <==> k in c.entries && c.entries[k].isPermanent)
      && (forall k :: k in r.entries ==> r.entries[k] == c.entries[k])
  {
    var r := ClearTempFixed(c);
    assert r.entries == c.entries - SetOf(c.recency);
    MapBytesRemoveAll(c.entries, c.recency);
  }

  /** The expired run: the keys it counts are expired, and the key before it is not. */
  lemma {:induction false} ExpiredRunSpec<K(!new), V>(m: map<K, Entry<V>>, s: seq<K>, now: int, ttl: Bound)
    ensures var n := ExpiredRun(m, s, now, ttl);
      && (forall i :: |s| - n <= i < |s| ==> s[i] in m && Expired(m[s[i]], now, ttl))
      && (n < |s| && s[|s| - n - 1] in m ==> !Expired(m[s[|s| - n - 1]], now, ttl))
  {
    if s != [] && Last(s) in m && Expired(m[Last(s)], now, ttl) {
      var s' := s[..|s| - 1];
      ExpiredRunSpec(m, s', now, ttl);
      var n := ExpiredRun(m, s, now, ttl);
      forall i | |s| - n <= i < |s| ensures s[i] in m && Expired(m[s[i]], now, ttl) {
        if i < |s| - 1 {
          assert s[i] == s'[i];
        }
      }
      if n < |s| {
        assert s[|s| - n - 1] == s'[|s'| - (n - 1) - 1];
      }
    }
  }

  /** Cutting the list after position j and dropping the cut keys keeps the list in agreement. */
  lemma SplitLinked<K(!new), V>(c: State<K, V>, j: int, r: State<K, V>)
    requires Linked(c) && 0 <= j <= |c.recency|
    requires r.entries == c.entries - SetOf(c.recency[j..]) && r.recency == c.recency[..j]
    ensures Linked(r)
    ensures forall k :: k in c.entries && c.entries[k].isPermanent ==> k in r.entries && r.entries[k] == c.entries[k]
  {
    var s := c.recency;
    DistinctPrefix(s, j);
    forall i | 0 <= i < j ensures s[i] !in SetOf(s[j..]) {
      forall x | 0 <= x < |s| - j ensures s[j..][x] != s[i] {
        assert s[j..][x] == s[j + x];
      }
    }
    forall i | 0 <= i < |r.recency| ensures r.recency[i] in r.entries && !r.entries[r.recency[i]].isPermanent {
      assert r.recency[i] == s[i];
    }
    assert s == s[..j] + s[j..];
    SetOfAppend(s[..j], s[j..]);
    forall k | k in r.entries && !r.entries[k].isPermanent ensures k in r.recency {
      assert k in SetOf(s);
    }
    forall k | k in s[j..] ensures k in s {
      var x :| 0 <= x < |s| - j && s[j..][x] == k;
      assert s[j + x] == k;
    }
    DropsOnlyTemporary(c, s[j..], r.entries);
  }

  /** The bytes left after cutting the list after position j and dropping the cut keys. */
  lemma SplitBytes<K(!new), V>(c: State<K, V>, j: int)
    requires Valid(c) && 0 <= j <= |c.recency|
    ensures var s := c.recency;
      var m := c.entries - SetOf(s[j..]);
      && ListBytes(m, s[..j]) == c.tmpBytes - ListBytes(c.entries, s[j..])
      && MapBytes(m) == c.totalBytes - ListBytes(c.entries, s[j..])
  {
    var s := c.recency;
    var m := c.entries - SetOf(s[j..]);
    assert s == s[..j] + s[j..];
    DistinctPrefix(s, j);
    ListBytesAppend(c.entries, s[..j], s[j..]);
    forall k | k in s[j..] ensures k in c.entries {
      var x :| 0 <= x < |s| - j && s[j..][x] == k;
      assert s[j + x] == k;
    }
    MapBytesRemoveAll(c.entries, s[j..]);
    SplitLinked(c, j, c.(entries := m, recency := s[..j]));
    forall k | k in s[..j] ensures BytesAt(c.entries, k) == BytesAt(m, k) {
      assert k in m;
    }
    ListBytesFrame(c.entries, m, s[..j]);
  }

  /**
   * _ttlClean removes from the index exactly the longest run of expired keys
   * at the tail; the first live key becomes the tail, and permanent entries
   * are never touched.
   */
  lemma SweepRemovesExpiredRun<K(!new), V>(c: State<K, V>, now: int, ttl: Bound)
    requires Linked(c)
    ensures var r := Sweep(c, now, ttl);
      var n := ExpiredRun(c.entries, c.recency, now, ttl);
      && Linked(r)
      && r.recency == c.recency[..|c.recency| - n]
      && r.entries == c.entries - SetOf(c.recency[|c.recency| - n..])
      && (forall i :: |c.recency| - n <= i < |c.recency| ==> Expired(c.entries[c.recency[i]], now, ttl))
      && (r.recency != [] ==> !Expired(r.entries[Last(r.recency)], now, ttl))
      && (forall k :: k in c.entries && c.entries[k].isPermanent ==> k in r.entries && r.entries[k] == c.entries[k])
  {
    var s := c.recency;
    var n := ExpiredRun(c.entries, s, now, ttl);
    var j := |s| - n;
    ExpiredRunSpec(c.entries, s, now, ttl);
    var r := Sweep(c, now, ttl);
    assert r.recency == s[..j];
    SplitLinked(c, j, r);
    if r.recency != [] {
      assert Last(r.recency) == s[j - 1];
    }
  }

  /** One step of the walk of _ttlClean, from the j-th key of the list to the one before it. */
  lemma SweepBack<K(!new), V>(m: map<K, Entry<V>>, rs: seq<K>, j: int, now: int, ttl: Bound)
    requires 0 < j <= |rs| && rs[j - 1] in m
    ensures SetOf(rs[j - 1..]) == SetOf(rs[j..]) + {rs[j - 1]}
    ensures ListBytes(m, rs[j - 1..]) == m[rs[j - 1]].bytes + ListBytes(m, rs[j..])
    ensures ExpiredRun(m, rs[..j], now, ttl) ==
      if Expired(m[rs[j - 1]], now, ttl) then 1 + ExpiredRun(m, rs[..j - 1], now, ttl) else 0
  {
    assert rs[j - 1..] == [rs[j - 1]] + rs[j..];
    assert rs[j - 1..][1..] == rs[j..];
    assert rs[..j][..j - 1] == rs[..j - 1];
  }

  /** The two outcomes of _ttlClean, for a walk that stopped at position j of the list. */
  lemma SweepCases<K(!new), V>(c: State<K, V>, now: int, ttl: Bound, j: int)
    requires Linked(c) && 0 <= j <= |c.recency| && ExpiredRun(c.entries, c.recency, now, ttl) == |c.recency| - j
    ensures Linked(Sweep(c, now, ttl))
    ensures j == 0 ==> var total := c.totalBytes - ListBytes(c.entries, c.recency);
      Sweep(c, now, ttl) == State(c.entries - SetOf(c.recency), [], 0, 0, if total < 0 then 0 else total)
    ensures j > 0 ==> Sweep(c, now, ttl) == c.(entries := c.entries - SetOf(c.recency[j..]), recency := c.recency[..j])
  {
    SweepRemovesExpiredRun(c, now, ttl);
    assert c.recency[0..] == c.recency;
  }

  /** A sweep that drains the list leaves the counters in agreement when no byte count is negative overall. */
  lemma SweepDrainValid<K(!new), V>(c: State<K, V>, now: int, ttl: Bound)
    requires Valid(c) && ExpiredRun(c.entries, c.recency, now, ttl) == |c.recency|
    requires c.totalBytes >= c.tmpBytes
    ensures Valid(Sweep(c, now, ttl))
  {
    SweepRemovesExpiredRun(c, now, ttl);
    SplitBytes(c, 0);
    assert c.recency[0..] == c.recency;
  }

  /** _ttlClean as written: a sweep that stops at a live key leaves the temporary count stale. */
  lemma SweepPartialLeavesCountStale<K(!new), V>(c: State<K, V>, now: int, ttl: Bound)
    requires Valid(c)
    requires 0 < ExpiredRun(c.entries, c.recency, now, ttl) < |c.recency|
    ensures Sweep(c, now, ttl).tmpSize > |Sweep(c, now, ttl).recency|
    ensures !Counted(Sweep(c, now, ttl))
  {
  }

  /** _ttlClean with the counters updated on both branches. */
  function SweepFixed<K(!new), V>(c: State<K, V>, now: int, ttl: Bound): State<K, V> {
    var n := ExpiredRun(c.entries, c.recency, now, ttl);
    var gone := c.recency[|c.recency| - n..];
    var bytes := ListBytes(c.entries, gone);
    State(c.entries - SetOf(gone), c.recency[..|c.recency| - n],
          c.tmpSize - n, c.tmpBytes - bytes, c.totalBytes - bytes)
  }

  /** The corrected sweep removes what the written one removes and keeps the counters in agreement. */
  lemma SweepFixedValid<K(!new), V>(c: State<K, V>, now: int, ttl: Bound)
    requires Valid(c)
    ensures var r := SweepFixed(c, now, ttl);
      && Valid(r)
      && r.entries == Sweep(c, now, ttl).entries
      && r.recency == Sweep(c, now, ttl).recency
  {
    var n := ExpiredRun(c.entries, c.recency, now, ttl);
    var j := |c.recency| - n;
    var r := SweepFixed(c, now, ttl);
    SweepRemovesExpiredRun(c, now, ttl);
    assert r.entries == c.entries - SetOf(c.recency[j..]) && r.recency == c.recency[..j];
    assert r.tmpSize == |c.recency| - n;
    SplitLinked(c, j, r);
    SplitBytes(c, j);
  }
}
