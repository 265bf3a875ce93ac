/**
 * The LRU_TTL class of src/index.ts.
 *
 * The cache's own state is one Store (module Arena): the Map from keys to
 * nodes, the node arena, the cache's _next and _prev, and the counters. Each
 * method works on a copy of it in the order of the statements of
 * src/index.ts and stores the result back once. Each method is proved to
 * change the abstract state Abstract() exactly as the matching function of
 * LruSpec says.
 */
module LruTtl {
  import opened Js
  import opened Chain
  import opened LruSpec
  import opened Arena

  /** The constructor's options (src/index.ts:9-20); an absent option is Undefined. */
  datatype Options<!K, V> = Options(max: Value, maxBytes: Value, ttl: Value, ttlInterval: Value,
                                   upsert: Option<K -> UpsertResult<V>>)

  /** The four limits of a cache. */
  datatype Limits = Limits(max: Bound, maxBytes: Bound, ttl: Bound, ttlInterval: Bound)

  /** A limit _getInt can produce: a positive safe integer or Infinity. */
  predicate BoundOk(b: Bound) {
    b.Inf? || 1 <= b.n <= MaxSafeInteger
  }

  predicate LimitsOk(l: Limits) {
    BoundOk(l.max) && BoundOk(l.maxBytes) && BoundOk(l.ttl) && BoundOk(l.ttlInterval)
  }

  /** `a > b` on limits. */
  predicate Above(a: Bound, b: Bound) {
    b.Fin? && (a.Inf? || a.n > b.n)
  }

  /** _getInt (src/index.ts:391-398): the default for null, the number for a positive safe integer or Infinity, else an Error. */
  function GetInt(arg: Value, attr: string, default: Bound): (r: Result<Bound>)
    ensures IsNullish(arg) ==> r == Ok(default)
    ensures !IsNullish(arg) ==> (r.Ok? <==> arg.Num? && IsPositiveIntOrInfinity(arg.n))
    ensures r.Ok? && !IsNullish(arg) ==> BoundOk(r.value) && (r.value.Inf? <==> arg.n.PosInf?)
    ensures r.Ok? && arg.Num? && arg.n.Finite? ==> r.value == Fin(arg.n.r.Floor) && r.value.n as real == arg.n.r
    ensures r.Throws? ==> r.message == "Expected positive integer for: " + attr
  {
    if IsNullish(arg) then Ok(default)
    else if arg.Num? && IsPositiveIntOrInfinity(arg.n) then
      Ok(if arg.n.PosInf? then Inf else Fin(arg.n.r.Floor))
    else Throws("Expected positive integer for: " + attr)
  }

  /** The ttlInterval fix (src/index.ts:90-91, 110-111): the interval is lowered to the ttl when it is above it. */
  function CapInterval(interval: Bound, ttl: Bound): (r: Bound)
    ensures !Above(r, ttl)
    ensures r == interval || r == ttl
    ensures !Above(interval, ttl) ==> r == interval
  {
    if Above(interval, ttl) then ttl else interval
  }

  /** The option checks of the constructor (src/index.ts:76-91), in their order; the first failing one throws. */
  function ParseOptions<K, V>(options: Option<Options<K, V>>): (r: Result<Limits>)
    ensures options.None? ==> r == Ok(Limits(Inf, Inf, Inf, Fin(60000)))
    ensures options.Some? ==>
      var o := options.value;
      (r.Ok? <==> GetInt(o.max, "options.max", Inf).Ok? && GetInt(o.maxBytes, "options.maxBytes", Inf).Ok?
                  && GetInt(o.ttl, "options.ttl", Inf).Ok? && GetInt(o.ttlInterval, "options.ttlInterval", Fin(60000)).Ok?)
    ensures r.Ok? ==> LimitsOk(r.value) && !Above(r.value.ttlInterval, r.value.ttl)
    ensures options.Some? && r.Ok? ==>
      var o := options.value;
      var ttl := GetInt(o.ttl, "options.ttl", Inf).value;
      r.value == Limits(GetInt(o.max, "options.max", Inf).value, GetInt(o.maxBytes, "options.maxBytes", Inf).value,
                        ttl, CapInterval(GetInt(o.ttlInterval, "options.ttlInterval", Fin(60000)).value, ttl))
    ensures options.Some? && r.Throws? ==>
      var o := options.value;
      r.message == (if GetInt(o.max, "options.max", Inf).Throws? then GetInt(o.max, "options.max", Inf).message
                    else if GetInt(o.maxBytes, "options.maxBytes", Inf).Throws? then GetInt(o.maxBytes, "options.maxBytes", Inf).message
                    else if GetInt(o.ttl, "options.ttl", Inf).Throws? then GetInt(o.ttl, "options.ttl", Inf).message
                    else GetInt(o.ttlInterval, "options.ttlInterval", Fin(60000)).message)
  {
    match options
    case None => Ok(Limits(Inf, Inf, Inf, Fin(60000)))
    case Some(o) => (
      match (GetInt(o.max, "options.max", Inf), GetInt(o.maxBytes, "options.maxBytes", Inf),
             GetInt(o.ttl, "options.ttl", Inf), GetInt(o.ttlInterval, "options.ttlInterval", Fin(60000)))
      case (Throws(m), _, _, _) => Throws(m)
      case (Ok(_), Throws(m), _, _) => Throws(m)
      case (Ok(_), Ok(_), Throws(m), _) => Throws(m)
      case (Ok(_), Ok(_), Ok(_), Throws(m)) => Throws(m)
      case (Ok(max), Ok(maxBytes), Ok(ttl), Ok(interval)) => Ok(Limits(max, maxBytes, ttl, CapInterval(interval, ttl))))
  }

  /**
   * The walk of _ttlClean (src/index.ts:348-357) at time now: from the
   * cache's _prev along _prev while the node is expired, taking each key out
   * of the Map and summing the bytes. It stops after the run of expired keys
   * at the tail of the list, at position j, on the node before the run or
   * on the cache.
   */
  method Walk<K(==,!new), V>(st: Store<K, V>, ghost shadow: Shadow<K, V>, now: int, ttl: Bound) returns (p: int, bytes: int, m: map<K, int>, ghost j: int)
    requires Walkable(st, shadow)
    ensures Walked(st, shadow, now, ttl, j, p, m, bytes)
  {
    p, bytes, m, j := st.tail, 0, st.index, |shadow.recency|;
    WalkStart(st, shadow, now, ttl);
    while p != Root && Expired(st.data[p], now, ttl)
      invariant Walking(st, shadow, now, ttl, j, p, m, bytes)
      decreases j
    {
      WalkNext(st, shadow, now, ttl, j, p, m, bytes);
      bytes := bytes + st.data[p].bytes;
      m := m - {st.keys[p]};
      p := st.prevs[p];
      j := j - 1;
    }
    WalkDone(st, shadow, now, ttl, j, p, m, bytes);
  }

  /**
   * The Map and list part of _ttlClean (src/index.ts:346-371) at time now:
   * the walk, then the reset of the list and the temporary counters when it
   * met the cache, or the cut after the node it stopped at otherwise.
   */
  method Clean<K(==,!new), V>(s: Store<K, V>, ghost g: Shadow<K, V>, now: int, ttl: Bound) returns (s': Store<K, V>, ghost g': Shadow<K, V>)
    requires Rep(s, g) && Linked(View(s, g))
    ensures Rep(s', g') && Linked(View(s', g'))
    ensures View(s', g') == Sweep(View(s, g), now, ttl)
  {
    Walks(s, g);
    var p, bytes, m, j := Walk(s, g, now, ttl);
    g' := SweepStep(s, g, now, ttl, j, p, m, bytes);
    s' := Swept(s, p, m, bytes);
  }

  // ---------------------------------------------------------------------------
  // The cache

  class Cache<K(==,!new), V(==)> {
    /** _map, the nodes, _next, _prev, _tmpSize, _tmpBytes and _totalBytes. */
    var st: Store<K, V>
    /** The stored entries by key, the keys of the list from head to tail, and their handles. */
    ghost var shadow: Shadow<K, V>
    var max: Bound
    var maxBytes: Bound
    var ttl: Bound
    var ttlInterval: Bound
    var upsertCb: Option<K -> UpsertResult<V>>

    /** The representation: arena, Map and pointers agree. */
    ghost predicate Valid()
      reads this`st, this`shadow
    {
      Rep(st, shadow)
    }

    /** The limits are ones _getInt accepts; only the constructor and the setters write them. */
    ghost predicate Limited()
      reads this`max, this`maxBytes, this`ttl, this`ttlInterval
    {
      LimitsOk(Limits(max, maxBytes, ttl, ttlInterval))
    }

    ghost function Abstract(): State<K, V>
      reads this`st, this`shadow
    {
      View(st, shadow)
    }

    /** The representation holds and the list holds exactly the temporary entries. */
    ghost predicate Ready()
      reads this`st, this`shadow
    {
      Valid() && Linked(Abstract())
    }

    /** constructor (src/index.ts:76-95) on options that pass their checks; an empty list points at the cache itself. */
    constructor(options: Option<Options<K, V>>)
      requires ParseOptions(options).Ok?
      ensures Ready() && Limited() && Abstract() == Empty()
      ensures Limits(max, maxBytes, ttl, ttlInterval) == ParseOptions(options).value
      ensures upsertCb == if options.Some? then options.value.upsert else None
    {
      var l := ParseOptions(options).value;
      max, maxBytes, ttl, ttlInterval := l.max, l.maxBytes, l.ttl, l.ttlInterval;
      upsertCb := if options.Some? then options.value.upsert else None;
      st := Store(map[], [], [], [], [], Root, Root, 0, 0, 0);
      shadow := Shadow(map[], [], []);
      EmptyChained([], []);
    }

    // -------------------------------------------------------------------------
    // Getters and option setters

    /** has (src/index.ts:135) */
    function Has(key: K): (b: bool)
      reads this
      requires Valid()
      ensures b <==> key in Abstract().entries
    {
      key in st.index
    }

    /** size (src/index.ts:129) */
    function Size(): (n: int)
      reads this
      requires Valid()
      ensures n == |Abstract().entries|
    {
      assert st.index.Keys == shadow.entries.Keys;
      |st.index|
    }

    /** bytes (src/index.ts:124): the counter, which is the total of all entries while the counters agree. */
    function Bytes(): (n: int)
      reads this
      requires Valid()
      ensures n == Abstract().totalBytes
      ensures Counted(Abstract()) ==> n == MapBytes(Abstract().entries)
    {
      st.totalBytes
    }

    /** tmpBytes (src/index.ts:126): the total of the temporary entries while the counters agree. */
    function TmpBytes(): (n: int)
      reads this
      requires Valid()
      ensures n == Abstract().tmpBytes
      ensures Counted(Abstract()) ==> n == ListBytes(Abstract().entries, Abstract().recency)
    {
      st.tmpBytes
    }

    /** tmpSize (src/index.ts:132): the number of temporary entries while the counters agree. */
    function TmpSize(): (n: int)
      reads this
      requires Valid()
      ensures n == Abstract().tmpSize
      ensures Counted(Abstract()) ==> n == |Abstract().recency|
      ensures Counted(Abstract()) && Linked(Abstract()) ==> n <= |Abstract().entries|
    {
      LinkedSize(Abstract());
      st.tmpSize
    }

    /** The max setter (src/index.ts:99): the limit changes only when _getInt accepts the argument; nothing is evicted. */
    method SetMax(arg: Value) returns (r: Result<Bound>)
      requires Limited()
      modifies this`max
      ensures Limited()
      ensures r == GetInt(arg, "max", Inf)
      ensures max == if r.Ok? then r.value else old(max)
    {
      r := GetInt(arg, "max", Inf);
      if r.Ok? {
        max := r.value;
      }
    }

    /** The maxBytes setter (src/index.ts:102). */
    method SetMaxBytes(arg: Value) returns (r: Result<Bound>)
      requires Limited()
      modifies this`maxBytes
      ensures Limited()
      ensures r == GetInt(arg, "maxBytes", Inf)
      ensures maxBytes == if r.Ok? then r.value else old(maxBytes)
    {
      r := GetInt(arg, "maxBytes", Inf);
      if r.Ok? {
        maxBytes := r.value;
      }
    }

    /** The ttl setter (src/index.ts:105): the interval is left as it is, even above the new ttl. */
    method SetTtl(arg: Value) returns (r: Result<Bound>)
      requires Limited()
      modifies this`ttl
      ensures Limited()
      ensures r == GetInt(arg, "ttl", Inf)
      ensures ttl == if r.Ok? then r.value else old(ttl)
    {
      r := GetInt(arg, "ttl", Inf);
      if r.Ok? {
        ttl := r.value;
      }
    }

    /** The ttlInterval setter (src/index.ts:108-117): the accepted interval is lowered to the ttl when above it. */
    method SetTtlInterval(arg: Value) returns (r: Result<Bound>)
      requires Limited()
      modifies this`ttlInterval
      ensures Limited()
      ensures r == GetInt(arg, "ttlInterval", Fin(60000))
      ensures r.Ok? ==> ttlInterval == CapInterval(r.value, ttl) && !Above(ttlInterval, ttl)
      ensures r.Throws? ==> ttlInterval == old(ttlInterval)
    {
      r := GetInt(arg, "ttlInterval", Fin(60000));
      if r.Ok? {
        ttlInterval := r.value;
        if Above(ttlInterval, ttl) {
          ttlInterval := ttl;
        }
      }
    }

    /** The upsertCb setter (src/index.ts:121). */
    method SetUpsertCb(cb: Option<K -> UpsertResult<V>>)
      modifies this`upsertCb
      ensures upsertCb == cb
    {
      upsertCb := cb;
    }

    // -------------------------------------------------------------------------
    // Operations

    /** Stores a new representation in the cache. */
    method Commit(s: Store<K, V>, ghost g: Shadow<K, V>)
      requires Rep(s, g) && Linked(View(s, g))
      modifies this`st, this`shadow
      ensures st == s && Ready() && Abstract() == View(s, g)
    {
      st, shadow := s, g;
    }

    /** _delete (src/index.ts:270-286): the key leaves the Map, a temporary node leaves the list, and the counters drop. */
    method DeleteNode(h: int)
      requires Ready() && 0 <= h < |st.keys| && st.keys[h] in st.index && st.index[st.keys[h]] == h
      modifies this`st, this`shadow
      ensures Ready()
      ensures Abstract() == Remove(old(Abstract()), old(st.keys[h]))
      ensures st.keys == old(st.keys) && st.data == old(st.data)
    {
      Hooks(st, shadow, h);
      ghost var g := DeleteStep(st, shadow, h);
      Commit(Deleted(st, h), g);
    }

    /** _delete(this._prev) (src/index.ts:183, 186, 245): the least recently used temporary entry goes. */
    method DeleteTail()
      requires Ready() && Abstract().recency != []
      modifies this`st, this`shadow
      ensures Ready()
      ensures Abstract() == Remove(old(Abstract()), Last(old(Abstract()).recency))
      ensures |Abstract().recency| == |old(Abstract()).recency| - 1
    {
      Ends(st, shadow);
      DeleteNode(st.tail);
    }

    /** The insertion part of _set (src/index.ts:159-180): a new node in the Map and, when temporary, at the head of the list. */
    method AddNode(key: K, value: V, bytes: int, isPermanent: bool, now: int)
      requires Ready() && key !in Abstract().entries
      modifies this`st, this`shadow
      ensures Ready()
      ensures Abstract() == Insert(old(Abstract()), key, value, bytes, isPermanent, now)
    {
      InsertKeepsLinked(Abstract(), key, value, bytes, isPermanent, now);
      ghost var g := AddStep(st, shadow, key, value, bytes, isPermanent, now);
      Commit(Added(st, key, value, bytes, isPermanent, now), g);
    }

    /**
     * The two caps of _set (src/index.ts:182-187): one eviction from the tail
     * when the temporary count exceeds max, then evictions from the tail while
     * the temporary bytes exceed maxBytes.
     */
    method Cap()
      requires Ready() && Abstract().recency != []
      modifies this`st, this`shadow
      ensures Ready()
      ensures Abstract() == EvictBytes(EvictCount(old(Abstract()), max), maxBytes)
    {
      ghost var target := EvictBytes(EvictCount(Abstract(), max), maxBytes);
      if Exceeds(st.tmpSize, max) {
        DeleteTail();
      }
      while Exceeds(st.tmpBytes, maxBytes) && st.tail != Root
        invariant Ready()
        invariant EvictBytes(Abstract(), maxBytes) == target
        decreases |shadow.recency|
      {
        Ends(st, shadow);
        EvictBytesStep(Abstract(), maxBytes);
        DeleteTail();
      }
      Ends(st, shadow);
      EvictBytesStep(Abstract(), maxBytes);
    }

    /** _set (src/index.ts:157-193) on a key the Map does not hold, at time now: the insertion, then for a temporary entry the caps. */
    method SetNode(key: K, value: V, bytes: int, isPermanent: bool, now: int)
      requires Ready() && key !in Abstract().entries
      modifies this`st, this`shadow
      ensures Ready()
      ensures Abstract() == SetNew(old(Abstract()), key, value, bytes, isPermanent, now, max, maxBytes)
    {
      InsertKeepsLinked(Abstract(), key, value, bytes, isPermanent, now);
      AddNode(key, value, bytes, isPermanent, now);
      if !isPermanent {
        Cap();
      }
    }

    /** The refresh of set (src/index.ts:142): only the lastAccess of node h changes. */
    method Stamp(h: int, now: int)
      requires Ready() && 0 <= h < |st.keys| && st.keys[h] in st.index && st.index[st.keys[h]] == h
      modifies this`st, this`shadow
      ensures Ready()
      ensures var c, key := old(Abstract()), old(st.keys[h]);
        Abstract() == c.(entries := c.entries[key := c.entries[key].(lastAccess := now)])
    {
      var s := st.(data := st.data[h := st.data[h].(lastAccess := now)]);
      ghost var g := StampStep(st, shadow, h, now);
      Commit(s, g);
    }

    /** set (src/index.ts:138-149) at time now: an identical item only has its lastAccess refreshed; otherwise the old node goes and a new one is set. */
    method Set(key: K, value: V, bytes: int, isPermanent: bool, now: int)
      requires Ready()
      modifies this`st, this`shadow
      ensures Ready()
      ensures Abstract() == LruSpec.Set(old(Abstract()), key, value, bytes, isPermanent, now, max, maxBytes)
    {
      ghost var c0 := Abstract();
      SetCases(c0, key, value, bytes, isPermanent, now, max, maxBytes);
      if key in st.index {
        var h := st.index[key];
        var e := st.data[h];
        assert key in c0.entries && c0.entries[key] == e && st.keys[h] == key;
        if e.value == value && e.bytes == bytes && e.isPermanent == isPermanent {
          Stamp(h, now);
          return;
        }
        DeleteNode(h);
      }
      SetNode(key, value, bytes, isPermanent, now);
    }

    /** setPermanent (src/index.ts:152-154). */
    method SetPermanent(key: K, value: V, bytes: int, now: int)
      requires Ready()
      modifies this`st, this`shadow
      ensures Ready()
      ensures Abstract() == LruSpec.Set(old(Abstract()), key, value, bytes, true, now, max, maxBytes)
    {
      Set(key, value, bytes, true, now);
    }

    /**
     * get (src/index.ts:196-235) at time now with a synchronous callback: a hit
     * refreshes the entry and returns its value; a miss with upsert throws
     * without a callback, and otherwise sets what the callback returns and
     * returns nothing.
     */
    method Get(key: K, upsert: bool, now: int) returns (r: Result<Option<V>>)
      requires Ready()
      modifies this`st, this`shadow
      ensures Ready()
      ensures Reply(Abstract(), r) == LruSpec.Get(old(Abstract()), key, upsert, upsertCb, now, max, maxBytes)
    {
      if key in st.index {
        var h := st.index[key];
        r := Ok(Some(st.data[h].value));
        Hit(h, now);
      } else if upsert {
        if upsertCb.None? {
          r := Throws("Missing upsert callback!");
        } else {
          var u := upsertCb.value(key);
          SetNode(key, u.value, u.bytes.GetOr(0), u.isPermanent, now);
          r := Ok(None);
        }
      } else {
        r := Ok(None);
      }
    }

    /**
     * clearTemp (src/index.ts:289-301) as written: the walk starts at the
     * cache's _prev and follows _next, which leads back to the cache after one
     * node, so only the least recently used key leaves the Map; the list and
     * the temporary counters are reset all the same.
     */
    method ClearTemp()
      requires Valid()
      modifies this`st, this`shadow
      ensures Valid()
      ensures Abstract() == LruSpec.ClearTemp(old(Abstract()))
    {
      Ends(st, shadow);
      var el := st.tail;
      var m := st.index;
      ghost var n := 0;
      while el != Root
        invariant 0 <= n <= 1
        invariant n == 0 ==> el == st.tail && m == st.index
        invariant n == 1 ==> el == Root && st.tail != Root && m == st.index - {st.keys[st.tail]}
        decreases 1 - n
      {
        m := m - {st.keys[el]};
        el := st.nexts[el];
        n := n + 1;
      }
      ghost var ks: set<K> := if st.tail == Root then {} else {st.keys[st.tail]};
      assert m == st.index - ks;
      assert shadow.entries - ks == if shadow.recency == [] then shadow.entries else shadow.entries - {Last(shadow.recency)};
      ClearStep(st, shadow, ks, m, 0, 0, st.totalBytes - st.tmpBytes);
      st, shadow := st.(index := m, head := Root, tail := Root, tmpSize := 0, tmpBytes := 0, totalBytes := st.totalBytes - st.tmpBytes),
                    Shadow(shadow.entries - ks, [], []);
    }

    /** clearAll (src/index.ts:304-308): the Map is emptied, the cache points at itself and every counter is 0. */
    method ClearAll()
      requires Valid()
      modifies this`st, this`shadow
      ensures Ready()
      ensures Abstract() == LruSpec.ClearAll(old(Abstract()))
    {
      ghost var ks := st.index.Keys;
      assert map[] == st.index - ks;
      assert shadow.entries - ks == map[];
      ClearStep(st, shadow, ks, map[], 0, 0, 0);
      st, shadow := st.(index := map[], head := Root, tail := Root, tmpSize := 0, tmpBytes := 0, totalBytes := 0),
                    Shadow(shadow.entries - ks, [], []);
    }

    /**
     * _ttlClean (src/index.ts:346-371) at time now, as written: after the
     * walk, when it met the cache the list and the temporary counters are
     * reset and the total drops by the bytes walked, never below 0; otherwise
     * the node it stopped at becomes the cache's _prev and no counter changes.
     */
    method TtlClean(now: int)
      requires Ready()
      modifies this`st, this`shadow
      ensures Ready()
      ensures Abstract() == Sweep(old(Abstract()), now, ttl)
    {
      var s; ghost var g;
      s, g := Clean(st, shadow, now, ttl);
      Commit(s, g);
    }

    /** The hit branch of get (src/index.ts:200-214) on node h. */
    method Hit(h: int, now: int)
      requires Ready() && 0 <= h < |st.keys| && st.keys[h] in st.index && st.index[st.keys[h]] == h
      modifies this`st, this`shadow
      ensures Ready()
      ensures Abstract() == Touch(old(Abstract()), old(st.keys[h]), now)
    {
      Hooks(st, shadow, h);
      Ends(st, shadow);
      ghost var g := TouchStep(st, shadow, h, now);
      Commit(Touched(st, h, now), g);
    }

    /** upsert (src/index.ts:257-259). */
    method Upsert(key: K, now: int) returns (r: Result<Option<V>>)
      requires Ready()
      modifies this`st, this`shadow
      ensures Ready()
      ensures Reply(Abstract(), r) == LruSpec.Get(old(Abstract()), key, true, upsertCb, now, max, maxBytes)
    {
      r := Get(key, true, now);
    }

    /** peek (src/index.ts:237-239): the stored value, leaving lastAccess and the order alone. */
    function Peek(key: K): (v: Option<V>)
      reads this
      requires Valid()
      ensures v == LruSpec.Peek(Abstract(), key)
      ensures v.Some? <==> key in Abstract().entries
    {
      if key in st.index then Some(st.data[st.index[key]].value) else None
    }

    /** getMetadata (src/index.ts:384-386): the stored entry. */
    function Metadata(key: K): (e: Option<Entry<V>>)
      reads this
      requires Valid()
      ensures e.Some? <==> key in Abstract().entries
      ensures e.Some? ==> e.value == Abstract().entries[key]
    {
      if key in st.index then Some(st.data[st.index[key]]) else None
    }

    /** getLRU (src/index.ts:252-254): the value of the cache's _prev. */
    function LeastRecent(): (v: Option<V>)
      reads this
      requires Ready()
      ensures v == LruSpec.LeastRecent(Abstract())
    {
      Ends(st, shadow);
      if st.tail == Root then None else Some(st.data[st.tail].value)
    }

    /** pop (src/index.ts:242-249): the cache's _prev is deleted and its value returned. */
    method Pop() returns (v: Option<V>)
      requires Ready()
      modifies this`st, this`shadow
      ensures Ready()
      ensures Reply(Abstract(), v) == LruSpec.Pop(old(Abstract()))
    {
      Ends(st, shadow);
      if st.tail != Root {
        v := Some(st.data[st.tail].value);
        DeleteTail();
      } else {
        v := None;
      }
    }

    /** delete (src/index.ts:262-267). */
    method Delete(key: K)
      requires Ready()
      modifies this`st, this`shadow
      ensures Ready()
      ensures Abstract() == LruSpec.Delete(old(Abstract()), key)
    {
      if key in st.index {
        DeleteNode(st.index[key]);
      }
    }

  }

}
