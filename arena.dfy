/**
 * The cache's representation: the Map from keys to nodes, the nodes in an
 * arena (module Chain), and the abstract state of LruSpec they stand for.
 * Rep ties the three together; the step lemmas below say how each pointer
 * rewrite of src/index.ts carries Rep over to the next abstract state.
 */
module Arena {
  import opened Js
  import opened Chain
  import opened LruSpec

  /** The Map agrees with the arena and with the abstract entries. */
  ghost predicate Indexed<K(!new), V>(index: map<K, int>, keys: seq<K>, data: seq<Entry<V>>, entries: map<K, Entry<V>>) {
    && |keys| == |data|
    && index.Keys == entries.Keys
    && (forall k :: k in index ==> 0 <= index[k] < |keys| && keys[index[k]] == k && data[index[k]] == entries[k])
  }

  /** The handle list is the recency list read through the Map. */
  ghost predicate Tracks<K(!new)>(index: map<K, int>, handles: seq<int>, recency: seq<K>) {
    && |handles| == |recency|
    && (forall i :: 0 <= i < |recency| ==> recency[i] in index && handles[i] == index[recency[i]])
  }

  lemma IndexedRemove<K(!new), V>(index: map<K, int>, keys: seq<K>, data: seq<Entry<V>>, entries: map<K, Entry<V>>, ks: set<K>)
    requires Indexed(index, keys, data, entries)
    ensures Indexed(index - ks, keys, data, entries - ks)
  {
  }

  lemma IndexedAppend<K(!new), V>(index: map<K, int>, keys: seq<K>, data: seq<Entry<V>>, entries: map<K, Entry<V>>, k: K, e: Entry<V>)
    requires Indexed(index, keys, data, entries) && k !in index
    ensures Indexed(index[k := |keys|], keys + [k], data + [e], entries[k := e])
  {
    forall k' | k' in index ensures (keys + [k])[index[k']] == k' && (data + [e])[index[k']] == entries[k'] {
      assert index[k'] < |keys|;
    }
  }

  lemma IndexedUpdate<K(!new), V>(index: map<K, int>, keys: seq<K>, data: seq<Entry<V>>, entries: map<K, Entry<V>>, k: K, e: Entry<V>)
    requires Indexed(index, keys, data, entries) && k in index
    ensures Indexed(index, keys, data[index[k] := e], entries[k := e])
  {
    forall k' | k' in index ensures data[index[k] := e][index[k']] == entries[k := e][k'] {
      if k' != k {
        assert keys[index[k']] != keys[index[k]];
      }
    }
  }

  /** Taking the i-th node out of both lists, with or without its key leaving the Map. */
  lemma TracksRemove<K(!new)>(index: map<K, int>, handles: seq<int>, recency: seq<K>, i: int, index': map<K, int>)
    requires Tracks(index, handles, recency) && Distinct(recency) && 0 <= i < |recency|
    requires index' == index || index' == index - {recency[i]}
    ensures Tracks(index', handles[..i] + handles[i + 1..], recency[..i] + recency[i + 1..])
  {
    var r := recency[..i] + recency[i + 1..];
    var h := handles[..i] + handles[i + 1..];
    forall j | 0 <= j < |r| ensures r[j] in index' && h[j] == index'[r[j]] {
      var j' := if j < i then j else j + 1;
      assert r[j] == recency[j'] && h[j] == handles[j'];
    }
  }

  lemma TracksDropAbsent<K(!new)>(index: map<K, int>, handles: seq<int>, recency: seq<K>, k: K)
    requires Tracks(index, handles, recency) && k !in recency
    ensures Tracks(index - {k}, handles, recency)
  {
  }

  lemma TracksPush<K(!new)>(index: map<K, int>, handles: seq<int>, recency: seq<K>, k: K)
    requires Tracks(index, handles, recency) && k in index
    ensures Tracks(index, [index[k]] + handles, [k] + recency)
  {
    forall j | 1 <= j <= |recency| ensures ([k] + recency)[j] == recency[j - 1] && ([index[k]] + handles)[j] == handles[j - 1] {
    }
  }

  lemma TracksInsert<K(!new)>(index: map<K, int>, handles: seq<int>, recency: seq<K>, k: K, h: int)
    requires Tracks(index, handles, recency) && k !in index
    ensures Tracks(index[k := h], handles, recency)
  {
  }

  lemma TracksPrefix<K(!new)>(index: map<K, int>, handles: seq<int>, recency: seq<K>, j: int)
    requires Tracks(index, handles, recency) && Distinct(recency) && 0 <= j <= |recency|
    ensures Tracks(index - SetOf(recency[j..]), handles[..j], recency[..j])
  {
    forall i | 0 <= i < j ensures recency[i] !in SetOf(recency[j..]) {
      forall x | 0 <= x < |recency| - j ensures recency[j..][x] != recency[i] {
        assert recency[j..][x] == recency[j + x];
      }
    }
  }

  /** The cache's own state: the Map, the node arena, the cache's _next and _prev, and the three counters. */
  datatype Store<K, V> = Store(index: map<K, int>, keys: seq<K>, data: seq<Entry<V>>, nexts: seq<int>, prevs: seq<int>,
                               head: int, tail: int, tmpSize: int, tmpBytes: int, totalBytes: int)

  /** What the store stands for: the entries by key, the list from head to tail, and the list's handles. */
  datatype Shadow<K, V> = Shadow(entries: map<K, Entry<V>>, recency: seq<K>, handles: seq<int>)

  /** The abstract state of a store and its shadow. */
  function View<K, V>(s: Store<K, V>, g: Shadow<K, V>): State<K, V> {
    State(g.entries, g.recency, s.tmpSize, s.tmpBytes, s.totalBytes)
  }

  /** The arena, the Map and the pointers represent the shadow, its list through the handles. */
  ghost predicate Rep<K(!new), V>(s: Store<K, V>, g: Shadow<K, V>) {
    && |s.keys| == |s.data| == |s.nexts| == |s.prevs|
    && Chained(g.handles, s.nexts, s.prevs, s.head, s.tail)
    && Indexed(s.index, s.keys, s.data, g.entries)
    && Tracks(s.index, g.handles, g.recency)
  }

  /** Only pointers differ between s and r: the Map, the arena's keys and data, and the counters are the same. */
  ghost predicate Kept<K, V>(s: Store<K, V>, r: Store<K, V>) {
    && r.index == s.index && r.keys == s.keys && r.data == s.data
    && |r.nexts| == |s.nexts| && |r.prevs| == |s.prevs|
    && r.tmpSize == s.tmpSize && r.tmpBytes == s.tmpBytes && r.totalBytes == s.totalBytes
  }

  /** Node h taken out of the chain (src/index.ts:274-279, 203-207): its neighbours are joined, the cache standing in at either end. */
  function Unlinked<K, V>(s: Store<K, V>, h: int): (r: Store<K, V>)
    requires 0 <= h < |s.nexts| && h < |s.prevs|
    requires s.nexts[h] == Root || 0 <= s.nexts[h] < |s.prevs|
    requires s.prevs[h] == Root || 0 <= s.prevs[h] < |s.nexts|
    ensures Kept(s, r)
    ensures s.prevs[h] != Root ==> r.head == s.head
  {
    var p, p2 := s.nexts[h], s.prevs[h];
    var s1 := if p == Root then s.(tail := p2) else s.(prevs := s.prevs[p := p2]);
    if p2 == Root then s1.(head := p) else s1.(nexts := s1.nexts[p2 := p])
  }

  /** Node h linked in as the cache's _next (src/index.ts:173-177, 209-213). */
  function Pushed<K, V>(s: Store<K, V>, h: int): (r: Store<K, V>)
    requires 0 <= h < |s.nexts| && h < |s.prevs|
    requires s.head == Root || 0 <= s.head < |s.prevs|
    ensures Kept(s, r) && r.head == h
  {
    var p := s.head;
    var s1 := if p == Root then s.(tail := h) else s.(prevs := s.prevs[p := h]);
    s1.(nexts := s1.nexts[h := p], prevs := s1.prevs[h := Root], head := h)
  }

  /** The cache's _prev is the cache itself exactly when the list is empty; otherwise it is the last listed node. */
  lemma Ends<K(!new), V>(s: Store<K, V>, g: Shadow<K, V>)
    requires Rep(s, g)
    ensures s.head == Root <==> g.recency == []
    ensures s.tail == Root <==> g.recency == []
    ensures s.head == Root || 0 <= s.head < |s.prevs|
    ensures g.recency != [] ==>
      && s.tail == g.handles[|g.handles| - 1] && 0 <= s.tail < |s.keys|
      && s.keys[s.tail] == Last(g.recency) && s.index[Last(g.recency)] == s.tail
      && s.data[s.tail] == g.entries[Last(g.recency)] && s.nexts[s.tail] == Root
  {
    if g.recency != [] {
      Neighbours(g.handles, s.nexts, s.prevs, s.head, s.tail, |g.handles| - 1);
    }
  }

  /** The i-th listed node: its key, its entry and its _prev. */
  lemma At<K(!new), V>(s: Store<K, V>, g: Shadow<K, V>, i: int)
    requires Rep(s, g) && 0 <= i < |g.recency|
    ensures 0 <= g.handles[i] < |s.keys| && s.keys[g.handles[i]] == g.recency[i]
    ensures g.recency[i] in g.entries && s.data[g.handles[i]] == g.entries[g.recency[i]]
    ensures s.prevs[g.handles[i]] == (if i == 0 then Root else g.handles[i - 1])
  {
    Neighbours(g.handles, s.nexts, s.prevs, s.head, s.tail, i);
  }

  /** What a walk along _prev from the cache's _prev sees: each listed node, its key, its entry and its _prev. */
  ghost predicate Walkable<K(!new), V>(s: Store<K, V>, g: Shadow<K, V>) {
    && |g.handles| == |g.recency|
    && |s.keys| == |s.data| == |s.prevs|
    && s.tail == (if g.handles == [] then Root else g.handles[|g.handles| - 1])
    && (forall i :: 0 <= i < |g.recency| ==>
          && 0 <= g.handles[i] < |s.keys| && s.keys[g.handles[i]] == g.recency[i]
          && g.recency[i] in g.entries && s.data[g.handles[i]] == g.entries[g.recency[i]]
          && s.prevs[g.handles[i]] == (if i == 0 then Root else g.handles[i - 1]))
  }

  lemma WalkAt<K(!new), V>(s: Store<K, V>, g: Shadow<K, V>, i: int)
    requires Walkable(s, g) && 0 <= i < |g.recency|
    ensures && 0 <= g.handles[i] < |s.keys| && s.keys[g.handles[i]] == g.recency[i]
            && g.recency[i] in g.entries && s.data[g.handles[i]] == g.entries[g.recency[i]]
            && s.prevs[g.handles[i]] == (if i == 0 then Root else g.handles[i - 1])
  {
  }

  lemma Walks<K(!new), V>(s: Store<K, V>, g: Shadow<K, V>)
    requires Rep(s, g)
    ensures Walkable(s, g)
  {
    Ends(s, g);
    forall i | 0 <= i < |g.recency|
      ensures && 0 <= g.handles[i] < |s.keys| && s.keys[g.handles[i]] == g.recency[i]
              && g.recency[i] in g.entries && s.data[g.handles[i]] == g.entries[g.recency[i]]
              && s.prevs[g.handles[i]] == (if i == 0 then Root else g.handles[i - 1])
    {
      At(s, g, i);
    }
  }

  /** A stored temporary node of a linked cache is listed: its key and its handle sit at one position i. */
  lemma Position<K(!new), V>(s: Store<K, V>, g: Shadow<K, V>, h: int) returns (i: int)
    requires Rep(s, g) && Linked(View(s, g))
    requires 0 <= h < |s.keys| && s.keys[h] in s.index && s.index[s.keys[h]] == h && !s.data[h].isPermanent
    ensures 0 <= i < |g.recency| && g.recency[i] == s.keys[h] && g.handles[i] == h
  {
    var key := s.keys[h];
    assert key in g.entries && g.entries[key] == s.data[h];
    assert key in g.recency;
    i :| 0 <= i < |g.recency| && g.recency[i] == key;
  }

  /** Unlinking the node listed at position i represents taking position i out of both lists. */
  lemma Detach<K(!new), V>(s: Store<K, V>, g: Shadow<K, V>, h: int, i: int)
    requires Rep(s, g) && Distinct(g.recency)
    requires 0 <= i < |g.recency| && g.handles[i] == h
    ensures 0 <= h < |s.nexts| && h < |s.prevs|
    ensures s.prevs[h] == Root <==> i == 0
    ensures s.nexts[h] == Root || 0 <= s.nexts[h] < |s.prevs|
    ensures s.prevs[h] == Root || 0 <= s.prevs[h] < |s.nexts|
    ensures Rep(Unlinked(s, h), Shadow(g.entries, g.recency[..i] + g.recency[i + 1..], g.handles[..i] + g.handles[i + 1..]))
  {
    TracksRemove(s.index, g.handles, g.recency, i, s.index);
    Neighbours(g.handles, s.nexts, s.prevs, s.head, s.tail, i);
    var p, p2 := s.nexts[h], s.prevs[h];
    var nexts' := if p2 == Root then s.nexts else s.nexts[p2 := p];
    var prevs' := if p == Root then s.prevs else s.prevs[p := p2];
    var head' := if p2 == Root then p else s.head;
    var tail' := if p == Root then p2 else s.tail;
    UnlinkChained(g.handles, s.nexts, s.prevs, s.head, s.tail, i, nexts', prevs', head', tail');
    assert Unlinked(s, h) == s.(nexts := nexts', prevs := prevs', head := head', tail := tail');
  }

  /** Dropping from the Map a key that is not listed represents dropping its entry. */
  lemma Forget<K(!new), V>(s: Store<K, V>, g: Shadow<K, V>, key: K)
    requires Rep(s, g) && key !in g.recency
    ensures Rep(s.(index := s.index - {key}), g.(entries := g.entries - {key}))
  {
    TracksDropAbsent(s.index, g.handles, g.recency, key);
    IndexedRemove(s.index, s.keys, s.data, g.entries, {key});
  }

  /** Pushing an unlisted node represents listing its key first. */
  lemma Attach<K(!new), V>(s: Store<K, V>, g: Shadow<K, V>, h: int)
    requires Rep(s, g) && 0 <= h < |s.keys| && s.keys[h] in s.index && s.index[s.keys[h]] == h && s.keys[h] !in g.recency
    ensures s.head == Root || 0 <= s.head < |s.prevs|
    ensures Rep(Pushed(s, h), Shadow(g.entries, [s.keys[h]] + g.recency, [h] + g.handles))
  {
    var s' := Pushed(s, h);
    PushChained(g.handles, s.nexts, s.prevs, s.head, s.tail, h, s'.nexts, s'.prevs, s'.tail);
    TracksPush(s.index, g.handles, g.recency, s.keys[h]);
  }

  /** A new node at the end of the arena, its pointers not yet set, represents a new entry. */
  lemma Append<K(!new), V>(s: Store<K, V>, g: Shadow<K, V>, key: K, e: Entry<V>)
    requires Rep(s, g) && key !in s.index
    ensures Rep(s.(index := s.index[key := |s.keys|], keys := s.keys + [key], data := s.data + [e],
                   nexts := s.nexts + [Root], prevs := s.prevs + [Root]),
                g.(entries := g.entries[key := e]))
  {
    ExtendChained(g.handles, s.nexts, s.prevs, s.head, s.tail, Root, Root);
    IndexedAppend(s.index, s.keys, s.data, g.entries, key, e);
    TracksInsert(s.index, g.handles, g.recency, key, |s.keys|);
  }

  /** Rewriting a stored node's data represents rewriting its entry. */
  lemma Refresh<K(!new), V>(s: Store<K, V>, g: Shadow<K, V>, h: int, e: Entry<V>)
    requires Rep(s, g) && 0 <= h < |s.keys| && s.keys[h] in s.index && s.index[s.keys[h]] == h
    ensures Rep(s.(data := s.data[h := e]), g.(entries := g.entries[s.keys[h] := e]))
  {
    IndexedUpdate(s.index, s.keys, s.data, g.entries, s.keys[h], e);
  }

  /** Ending the list at its j-th node and dropping the keys after it from the Map (src/index.ts:352-370). */
  lemma Cut<K(!new), V>(s: Store<K, V>, g: Shadow<K, V>, j: int)
    requires Rep(s, g) && Distinct(g.recency) && 0 < j <= |g.recency|
    ensures 0 <= g.handles[j - 1] < |s.nexts|
    ensures var rs := g.recency;
      Rep(s.(index := s.index - SetOf(rs[j..]), tail := g.handles[j - 1], nexts := s.nexts[g.handles[j - 1] := Root]),
          Shadow(g.entries - SetOf(rs[j..]), rs[..j], g.handles[..j]))
  {
    TruncateChained(g.handles, s.nexts, s.prevs, s.head, s.tail, j);
    TracksPrefix(s.index, g.handles, g.recency, j);
    IndexedRemove(s.index, s.keys, s.data, g.entries, SetOf(g.recency[j..]));
  }

  /** Pointing the cache at itself, dropping the keys ks from the Map and setting the counters represents an empty list. */
  lemma ClearStep<K(!new), V>(s: Store<K, V>, g: Shadow<K, V>, ks: set<K>, m: map<K, int>, tmpSize: int, tmpBytes: int, totalBytes: int)
    requires Rep(s, g) && m == s.index - ks
    ensures Rep(s.(index := m, head := Root, tail := Root, tmpSize := tmpSize, tmpBytes := tmpBytes, totalBytes := totalBytes),
                Shadow(g.entries - ks, [], []))
  {
    EmptyChained(s.nexts, s.prevs);
    IndexedRemove(s.index, s.keys, s.data, g.entries, ks);
  }

  /** The counters are not part of the representation. */
  lemma Recount<K(!new), V>(s: Store<K, V>, g: Shadow<K, V>, tmpSize: int, tmpBytes: int, totalBytes: int)
    requires Rep(s, g)
    ensures Rep(s.(tmpSize := tmpSize, tmpBytes := tmpBytes, totalBytes := totalBytes), g)
  {
  }

  lemma Retotal<K(!new), V>(s: Store<K, V>, g: Shadow<K, V>, totalBytes: int)
    requires Rep(s, g)
    ensures Rep(s.(totalBytes := totalBytes), g)
  {
  }

  lemma Retemp<K(!new), V>(s: Store<K, V>, g: Shadow<K, V>, tmpSize: int, tmpBytes: int)
    requires Rep(s, g)
    ensures Rep(s.(tmpSize := tmpSize, tmpBytes := tmpBytes), g)
  {
  }

  /** Node h's pointers lead to the cache or to nodes of the arena. */
  predicate Hooked<K, V>(s: Store<K, V>, h: int) {
    && 0 <= h < |s.keys| == |s.data| == |s.nexts| == |s.prevs|
    && (!s.data[h].isPermanent ==> s.nexts[h] == Root || 0 <= s.nexts[h] < |s.prevs|)
    && (!s.data[h].isPermanent ==> s.prevs[h] == Root || 0 <= s.prevs[h] < |s.nexts|)
  }

  /** Every stored node is hooked into the arena. */
  lemma Hooks<K(!new), V>(s: Store<K, V>, g: Shadow<K, V>, h: int)
    requires Rep(s, g) && Linked(View(s, g))
    requires 0 <= h < |s.keys| && s.keys[h] in s.index && s.index[s.keys[h]] == h
    ensures Hooked(s, h)
  {
    if !s.data[h].isPermanent {
      var i := Position(s, g, h);
      Neighbours(g.handles, s.nexts, s.prevs, s.head, s.tail, i);
    }
  }

  /** The store after _delete of node h (src/index.ts:270-286): the key leaves the Map, a temporary node leaves the chain. */
  function Deleted<K, V>(s: Store<K, V>, h: int): (r: Store<K, V>)
    requires Hooked(s, h)
    ensures r.keys == s.keys && r.data == s.data && |r.nexts| == |s.nexts| && |r.prevs| == |s.prevs|
  {
    var e := s.data[h];
    if e.isPermanent then
      s.(index := s.index - {s.keys[h]}, totalBytes := s.totalBytes - e.bytes)
    else
      var s0 := Unlinked(s, h);
      s0.(index := s0.index - {s.keys[h]}, tmpBytes := s0.tmpBytes - e.bytes, tmpSize := s0.tmpSize - 1,
          totalBytes := s0.totalBytes - e.bytes)
  }

  /** _delete of a temporary node is the unlinking, the Map deletion and the counter updates, in turn. */
  lemma DeletedTemporary<K, V>(s: Store<K, V>, h: int)
    requires Hooked(s, h) && !s.data[h].isPermanent
    ensures var s0 := Unlinked(s, h);
      Deleted(s, h) == s0.(index := s0.index - {s.keys[h]}).(tmpSize := s0.tmpSize - 1, tmpBytes := s0.tmpBytes - s.data[h].bytes,
                                                              totalBytes := s0.totalBytes - s.data[h].bytes)
  {
  }

  /** _delete of the temporary node listed at position i takes position i out of both lists and its key out of the Map. */
  lemma DeleteListed<K(!new), V>(s: Store<K, V>, g: Shadow<K, V>, h: int, i: int)
    requires Rep(s, g) && Distinct(g.recency) && Hooked(s, h) && !s.data[h].isPermanent
    requires 0 <= i < |g.recency| && g.handles[i] == h && g.recency[i] == s.keys[h]
    ensures Rep(Deleted(s, h), Shadow(g.entries - {s.keys[h]}, g.recency[..i] + g.recency[i + 1..], g.handles[..i] + g.handles[i + 1..]))
  {
    var key := s.keys[h];
    Detach(s, g, h, i);
    NotElsewhere(g.recency, i);
    var g1 := Shadow(g.entries, g.recency[..i] + g.recency[i + 1..], g.handles[..i] + g.handles[i + 1..]);
    var s0 := Unlinked(s, h);
    Forget(s0, g1, key);
    var s1 := s0.(index := s0.index - {key});
    var g2 := g1.(entries := g1.entries - {key});
    Recount(s1, g2, s0.tmpSize - 1, s0.tmpBytes - s.data[h].bytes, s0.totalBytes - s.data[h].bytes);
    DeletedTemporary(s, h);
    assert g2 == Shadow(g.entries - {key}, g1.recency, g1.handles);
  }

  /** _delete represents Remove. */
  lemma DeleteStep<K(!new), V>(s: Store<K, V>, g: Shadow<K, V>, h: int) returns (g': Shadow<K, V>)
    requires Rep(s, g) && Linked(View(s, g))
    requires 0 <= h < |s.keys| && s.keys[h] in s.index && s.index[s.keys[h]] == h && Hooked(s, h)
    ensures Rep(Deleted(s, h), g')
    ensures View(Deleted(s, h), g') == Remove(View(s, g), s.keys[h])
  {
    if !s.data[h].isPermanent {
      g' := DeleteTemporaryStep(s, g, h);
    } else {
      g' := DeletePermanentStep(s, g, h);
    }
  }

  /** _delete of a temporary node represents Remove: the node leaves the chain at its position in the list. */
  lemma DeleteTemporaryStep<K(!new), V>(s: Store<K, V>, g: Shadow<K, V>, h: int) returns (g': Shadow<K, V>)
    requires Rep(s, g) && Linked(View(s, g))
    requires 0 <= h < |s.keys| && s.keys[h] in s.index && s.index[s.keys[h]] == h && Hooked(s, h) && !s.data[h].isPermanent
    ensures Rep(Deleted(s, h), g')
    ensures View(Deleted(s, h), g') == Remove(View(s, g), s.keys[h])
  {
    var key := s.keys[h];
    var i := Position(s, g, h);
    DeleteListed(s, g, h, i);
    RemoveAt(View(s, g), i);
    g' := Shadow(g.entries - {key}, g.recency[..i] + g.recency[i + 1..], g.handles[..i] + g.handles[i + 1..]);
  }

  /** _delete of a permanent node represents Remove: only the Map and the total bytes change. */
  lemma DeletePermanentStep<K(!new), V>(s: Store<K, V>, g: Shadow<K, V>, h: int) returns (g': Shadow<K, V>)
    requires Rep(s, g) && Linked(View(s, g))
    requires 0 <= h < |s.keys| && s.keys[h] in s.index && s.index[s.keys[h]] == h && Hooked(s, h) && s.data[h].isPermanent
    ensures Rep(Deleted(s, h), g')
    ensures View(Deleted(s, h), g') == Remove(View(s, g), s.keys[h])
  {
    var key := s.keys[h];
    assert key in g.entries && g.entries[key] == s.data[h];
    Forget(s, g, key);
    g' := g.(entries := g.entries - {key});
  }

  /**
   * The store after the insertion part of _set (src/index.ts:157-180): a new
   * node at the end of the arena and in the Map, counted in the total bytes,
   * and, when temporary, linked in as the cache's _next and counted in the
   * temporary counters.
   */
  function Added<K, V>(s: Store<K, V>, key: K, value: V, bytes: int, isPermanent: bool, now: int): (r: Store<K, V>)
    requires |s.keys| == |s.data| == |s.nexts| == |s.prevs|
    requires s.head == Root || 0 <= s.head < |s.prevs|
    ensures r.keys == s.keys + [key] && r.index == s.index[key := |s.keys|]
    ensures |r.data| == |r.nexts| == |r.prevs| == |r.keys|
  {
    var h := |s.keys|;
    var s1 := s.(index := s.index[key := h], keys := s.keys + [key], data := s.data + [Entry(value, bytes, now, now, isPermanent)],
                 nexts := s.nexts + [Root], prevs := s.prevs + [Root]);
    var s2 := s1.(totalBytes := s1.totalBytes + bytes);
    if isPermanent then s2
    else
      var s3 := Pushed(s2, h);
      s3.(tmpSize := s3.tmpSize + 1, tmpBytes := s3.tmpBytes + bytes)
  }

  /** What Added does to the abstract state, apart from the representation. */
  lemma AddedView<K(!new), V>(s: Store<K, V>, g: Shadow<K, V>, g': Shadow<K, V>, key: K, value: V, bytes: int, isPermanent: bool, now: int)
    requires |s.keys| == |s.data| == |s.nexts| == |s.prevs|
    requires s.head == Root || 0 <= s.head < |s.prevs|
    requires g'.entries == g.entries[key := Entry(value, bytes, now, now, isPermanent)]
    requires g'.recency == if isPermanent then g.recency else [key] + g.recency
    ensures View(Added(s, key, value, bytes, isPermanent, now), g') == Insert(View(s, g), key, value, bytes, isPermanent, now)
  {
  }

  /** Added is the appending, the total, and for a temporary node the pushing and the temporary counters, in turn. */
  lemma AddedForm<K, V>(s: Store<K, V>, key: K, value: V, bytes: int, isPermanent: bool, now: int)
    requires |s.keys| == |s.data| == |s.nexts| == |s.prevs|
    requires s.head == Root || 0 <= s.head < |s.prevs|
    ensures var h := |s.keys|;
      var s1 := s.(index := s.index[key := h], keys := s.keys + [key], data := s.data + [Entry(value, bytes, now, now, isPermanent)],
                   nexts := s.nexts + [Root], prevs := s.prevs + [Root]);
      var s2 := s1.(totalBytes := s1.totalBytes + bytes);
      && (isPermanent ==> Added(s, key, value, bytes, isPermanent, now) == s2)
      && (!isPermanent ==> Added(s, key, value, bytes, isPermanent, now) == Pushed(s2, h).(tmpSize := Pushed(s2, h).tmpSize + 1, tmpBytes := Pushed(s2, h).tmpBytes + bytes))
  {
  }

  /** The insertion part of _set represents Insert. */
  lemma AddStep<K(!new), V>(s: Store<K, V>, g: Shadow<K, V>, key: K, value: V, bytes: int, isPermanent: bool, now: int)
    returns (g': Shadow<K, V>)
    requires Rep(s, g) && Linked(View(s, g)) && key !in s.index
    ensures s.head == Root || 0 <= s.head < |s.prevs|
    ensures Rep(Added(s, key, value, bytes, isPermanent, now), g')
    ensures View(Added(s, key, value, bytes, isPermanent, now), g') == Insert(View(s, g), key, value, bytes, isPermanent, now)
  {
    Ends(s, g);
    var h := |s.keys|;
    var e := Entry(value, bytes, now, now, isPermanent);
    Append(s, g, key, e);
    var s1 := s.(index := s.index[key := h], keys := s.keys + [key], data := s.data + [e],
                 nexts := s.nexts + [Root], prevs := s.prevs + [Root]);
    var g1 := g.(entries := g.entries[key := e]);
    Retotal(s1, g1, s1.totalBytes + bytes);
    var s2 := s1.(totalBytes := s1.totalBytes + bytes);
    if isPermanent {
      g' := g1;
      AddedForm(s, key, value, bytes, isPermanent, now);
    } else {
      assert key !in g.entries;
      assert key !in g.recency;
      Attach(s2, g1, h);
      var s3 := Pushed(s2, h);
      g' := Shadow(g1.entries, [key] + g1.recency, [h] + g1.handles);
      Retemp(s3, g', s3.tmpSize + 1, s3.tmpBytes + bytes);
      AddedForm(s, key, value, bytes, isPermanent, now);
    }
    AddedView(s, g, g', key, value, bytes, isPermanent, now);
  }

  /**
   * The store after a hit in get (src/index.ts:200-214) on node h: its
   * lastAccess refreshed and, when it is temporary and not the cache's _next,
   * the node moved there.
   */
  function Touched<K, V>(s: Store<K, V>, h: int, now: int): (r: Store<K, V>)
    requires Hooked(s, h) && (s.head == Root || 0 <= s.head < |s.prevs|)
    ensures r.index == s.index && r.keys == s.keys && r.data == s.data[h := s.data[h].(lastAccess := now)]
    ensures |r.nexts| == |s.nexts| && |r.prevs| == |s.prevs|
  {
    var s1 := s.(data := s.data[h := s.data[h].(lastAccess := now)]);
    if !s.data[h].isPermanent && s.prevs[h] != Root then Pushed(Unlinked(s1, h), h) else s1
  }

  /** A hit in get represents Touch. */
  lemma TouchStep<K(!new), V>(s: Store<K, V>, g: Shadow<K, V>, h: int, now: int) returns (g': Shadow<K, V>)
    requires Rep(s, g) && Linked(View(s, g))
    requires 0 <= h < |s.keys| && s.keys[h] in s.index && s.index[s.keys[h]] == h && Hooked(s, h)
    requires s.head == Root || 0 <= s.head < |s.prevs|
    ensures Rep(Touched(s, h, now), g') && Linked(View(Touched(s, h, now), g'))
    ensures View(Touched(s, h, now), g') == Touch(View(s, g), s.keys[h], now)
  {
    TouchMovesToFront(View(s, g), s.keys[h], now);
    var key := s.keys[h];
    var e := s.data[h].(lastAccess := now);
    assert key in g.entries && g.entries[key] == s.data[h];
    Refresh(s, g, h, e);
    var s1 := s.(data := s.data[h := e]);
    var g1 := g.(entries := g.entries[key := e]);
    if !e.isPermanent {
      var i := Position(s, g, h);
      At(s, g, i);
      if s.prevs[h] != Root {
        Detach(s1, g1, h, i);
        NotElsewhere(g.recency, i);
        var g2 := Shadow(g1.entries, g1.recency[..i] + g1.recency[i + 1..], g1.handles[..i] + g1.handles[i + 1..]);
        Attach(Unlinked(s1, h), g2, h);
        g' := Shadow(g2.entries, [key] + g2.recency, [h] + g2.handles);
        WithoutAt(g.recency, i);
      } else {
        g' := g1;
      }
    } else {
      g' := g1;
    }
  }

  /** The refresh of set (src/index.ts:142) on node h. */
  lemma StampStep<K(!new), V>(s: Store<K, V>, g: Shadow<K, V>, h: int, now: int) returns (g': Shadow<K, V>)
    requires Rep(s, g) && Linked(View(s, g))
    requires 0 <= h < |s.keys| && s.keys[h] in s.index && s.index[s.keys[h]] == h
    ensures var s' := s.(data := s.data[h := s.data[h].(lastAccess := now)]);
      var c, key := View(s, g), s.keys[h];
      && Rep(s', g') && Linked(View(s', g'))
      && View(s', g') == c.(entries := c.entries[key := c.entries[key].(lastAccess := now)])
  {
    var key := s.keys[h];
    var e := s.data[h].(lastAccess := now);
    assert key in g.entries && g.entries[key] == s.data[h];
    Refresh(s, g, h, e);
    LinkedUpdate(View(s, g), key, e);
    g' := g.(entries := g.entries[key := e]);
  }

  /**
   * The store after the walk of _ttlClean (src/index.ts:358-370) stopped at
   * p with the Map m and the walked bytes: when p is the cache the list and
   * the temporary counters are reset and the total drops by the bytes, never
   * below 0; otherwise p becomes the cache's _prev.
   */
  function Swept<K, V>(s: Store<K, V>, p: int, m: map<K, int>, bytes: int): Store<K, V>
    requires p == Root || 0 <= p < |s.nexts|
  {
    if p == Root then
      var total := s.totalBytes - bytes;
      s.(index := m, head := Root, tail := Root, tmpSize := 0, tmpBytes := 0, totalBytes := if total < 0 then 0 else total)
    else
      s.(index := m, tail := p, nexts := s.nexts[p := Root])
  }

  /**
   * Where the walk of _ttlClean stops at time now: after the run of expired
   * keys at the tail of the list, at position j, on node p (the cache when
   * j is 0), with those keys taken out of the Map m and their bytes summed.
   */
  ghost predicate Walked<K(!new), V>(s: Store<K, V>, g: Shadow<K, V>, now: int, ttl: Bound, j: int, p: int, m: map<K, int>, bytes: int) {
    var es, rs := g.entries, g.recency;
    && |g.handles| == |rs| && 0 <= j <= |rs| && j == |rs| - ExpiredRun(es, rs, now, ttl)
    && p == (if j == 0 then Root else g.handles[j - 1])
    && m == s.index - SetOf(rs[j..])
    && bytes == ListBytes(es, rs[j..])
  }

  /**
   * The walk of _ttlClean at position j of the list: p is the node there (the
   * cache when j is 0), the keys after it are an expired run, out of the Map
   * m, and their bytes are summed.
   */
  ghost predicate Walking<K(!new), V>(s: Store<K, V>, g: Shadow<K, V>, now: int, ttl: Bound, j: int, p: int, m: map<K, int>, bytes: int) {
    var es, rs := g.entries, g.recency;
    && Walkable(s, g) && 0 <= j <= |rs|
    && p == (if j == 0 then Root else g.handles[j - 1])
    && (p == Root || 0 <= p < |s.data|)
    && m == s.index - SetOf(rs[j..])
    && bytes == ListBytes(es, rs[j..])
    && ExpiredRun(es, rs, now, ttl) == |rs| - j + ExpiredRun(es, rs[..j], now, ttl)
  }

  /** The walk starts at the cache's _prev with the whole Map and no bytes. */
  lemma WalkStart<K(!new), V>(s: Store<K, V>, g: Shadow<K, V>, now: int, ttl: Bound)
    requires Walkable(s, g)
    ensures Walking(s, g, now, ttl, |g.recency|, s.tail, s.index, 0)
  {
    var rs := g.recency;
    if rs != [] {
      WalkAt(s, g, |rs| - 1);
    }
    assert rs[|rs|..] == [] && rs[..|rs|] == rs;
  }

  /** One step of the walk past an expired node p: its key leaves the Map, its bytes are added, and the walk moves to its _prev. */
  lemma WalkNext<K(!new), V>(s: Store<K, V>, g: Shadow<K, V>, now: int, ttl: Bound, j: int, p: int, m: map<K, int>, bytes: int)
    requires Walking(s, g, now, ttl, j, p, m, bytes) && p != Root && Expired(s.data[p], now, ttl)
    ensures 0 < j && 0 <= p < |s.keys| && 0 <= p < |s.prevs|
    ensures Walking(s, g, now, ttl, j - 1, s.prevs[p], m - {s.keys[p]}, bytes + s.data[p].bytes)
  {
    var es, rs, hs := g.entries, g.recency, g.handles;
    WalkAt(s, g, j - 1);
    if j >= 2 {
      WalkAt(s, g, j - 2);
    }
    SweepBack(es, rs, j, now, ttl);
    MapMinusUnion(s.index, SetOf(rs[j..]), {rs[j - 1]});
  }

  /** The walk stops on the cache or on a node that has not expired: that is where Walked says. */
  lemma WalkDone<K(!new), V>(s: Store<K, V>, g: Shadow<K, V>, now: int, ttl: Bound, j: int, p: int, m: map<K, int>, bytes: int)
    requires Walking(s, g, now, ttl, j, p, m, bytes) && (p == Root || !Expired(s.data[p], now, ttl))
    ensures Walked(s, g, now, ttl, j, p, m, bytes)
  {
    var es, rs := g.entries, g.recency;
    if j > 0 {
      WalkAt(s, g, j - 1);
      SweepBack(es, rs, j, now, ttl);
    } else {
      assert rs[..j] == [];
    }
  }

  lemma SweepStep<K(!new), V>(s: Store<K, V>, g: Shadow<K, V>, now: int, ttl: Bound, j: int, p: int, m: map<K, int>, bytes: int)
    returns (g': Shadow<K, V>)
    requires Rep(s, g) && Linked(View(s, g)) && Walked(s, g, now, ttl, j, p, m, bytes)
    ensures p == Root || 0 <= p < |s.nexts|
    ensures Rep(Swept(s, p, m, bytes), g') && Linked(View(Swept(s, p, m, bytes), g'))
    ensures View(Swept(s, p, m, bytes), g') == Sweep(View(s, g), now, ttl)
  {
    var rs := g.recency;
    SweepCases(View(s, g), now, ttl, j);
    if j == 0 {
      assert rs[j..] == rs;
      var total := s.totalBytes - bytes;
      ClearStep(s, g, SetOf(rs), m, 0, 0, if total < 0 then 0 else total);
      g' := Shadow(g.entries - SetOf(rs), [], []);
    } else {
      Cut(s, g, j);
      g' := Shadow(g.entries - SetOf(rs[j..]), rs[..j], g.handles[..j]);
    }
  }

  /** The list never holds more keys than the index. */
  lemma LinkedSize<K(!new), V>(c: State<K, V>)
    ensures Linked(c) ==> |c.recency| <= |c.entries|
  {
    if Linked(c) {
      DistinctCard(c.recency);
      SubsetCard(SetOf(c.recency), c.entries.Keys);
    }
  }

  lemma {:induction false} SubsetCard<K(!new)>(a: set<K>, b: set<K>)
    requires a <= b
    ensures |a| <= |b|
    decreases a
  {
    if a != {} {
      var x :| x in a;
      SubsetCard(a - {x}, b - {x});
    }
  }

  lemma {:induction false} DistinctCard<K(!new)>(s: seq<K>)
    requires Distinct(s)
    ensures |SetOf(s)| == |s|
  {
    if s != [] {
      assert Distinct(s[1..]) && s[0] !in s[1..];
      DistinctCard(s[1..]);
      assert SetOf(s) == {s[0]} + SetOf(s[1..]);
    }
  }
}
