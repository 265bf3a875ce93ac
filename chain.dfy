/**
 * The circular doubly linked recency list of src/index.ts, over an arena.
 *
 * Nodes are handles 0, 1, 2, ... into two parallel sequences: nexts[h] is the
 * node's _next (towards the least recently used end) and prevs[h] its _prev
 * (towards the most recently used end). The cache object itself closes the
 * circle: it is the handle Root, its _next is `head` (the most recently used
 * node) and its _prev is `tail` (the least recently used node).
 *
 * Chained(hs, ...) says that the pointers spell out exactly the handle
 * sequence hs, from head to tail. The lemmas below are the three pointer
 * rewrites the cache performs: unlinking a node, pushing a node at the head,
 * and cutting the list after a node.
 */
module Chain {

  /** The cache object acting as sentinel. */
  const Root: int := -1

  predicate Distinct<T(==)>(s: seq<T>) {
    forall i, j :: 0 <= i < j < |s| ==> s[i] != s[j]
  }

  /** The _next of the i-th node: the following node, or the cache after the last one. */
  function Succ(hs: seq<int>, i: int): int
    requires 0 <= i < |hs|
  {
    if i + 1 < |hs| then hs[i + 1] else Root
  }

  /** The _prev of the i-th node: the preceding node, or the cache before the first one. */
  function Pred(hs: seq<int>, i: int): int
    requires 0 <= i < |hs|
  {
    if i > 0 then hs[i - 1] else Root
  }

  /** The pointers (nexts, prevs, head, tail) spell out the handle sequence hs, once each. */
  ghost predicate Chained(hs: seq<int>, nexts: seq<int>, prevs: seq<int>, head: int, tail: int) {
    && Distinct(hs)
    && (forall i :: 0 <= i < |hs| ==> 0 <= hs[i] < |nexts| && hs[i] < |prevs|)
    && head == (if |hs| == 0 then Root else hs[0])
    && tail == (if |hs| == 0 then Root else hs[|hs| - 1])
    && (forall i {:trigger nexts[hs[i]]} :: 0 <= i < |hs| ==> nexts[hs[i]] == Succ(hs, i))
    && (forall i {:trigger prevs[hs[i]]} :: 0 <= i < |hs| ==> prevs[hs[i]] == Pred(hs, i))
  }

  /** The neighbours of the i-th node: each is the cache or a node in range. */
  lemma Neighbours(hs: seq<int>, nexts: seq<int>, prevs: seq<int>, head: int, tail: int, i: int)
    requires Chained(hs, nexts, prevs, head, tail) && 0 <= i < |hs|
    ensures nexts[hs[i]] == Succ(hs, i) && prevs[hs[i]] == Pred(hs, i)
    ensures Succ(hs, i) == Root || (0 <= Succ(hs, i) < |nexts| && Succ(hs, i) < |prevs|)
    ensures Pred(hs, i) == Root || (0 <= Pred(hs, i) < |nexts| && Pred(hs, i) < |prevs|)
  {
  }

  /** An empty list: the cache points at itself. */
  lemma EmptyChained(nexts: seq<int>, prevs: seq<int>)
    ensures Chained([], nexts, prevs, Root, Root)
  {
  }

  /** Growing the arena leaves the chain as it was. */
  lemma {:induction false} ExtendChained(hs: seq<int>, nexts: seq<int>, prevs: seq<int>, head: int, tail: int, n: int, p: int)
    requires Chained(hs, nexts, prevs, head, tail)
    ensures Chained(hs, nexts + [n], prevs + [p], head, tail)
  {
    forall i | 0 <= i < |hs|
      ensures (nexts + [n])[hs[i]] == Succ(hs, i) && (prevs + [p])[hs[i]] == Pred(hs, i)
    {
      assert nexts[hs[i]] == Succ(hs, i) && prevs[hs[i]] == Pred(hs, i);
    }
  }

  lemma {:induction false} DistinctRemove<T>(hs: seq<T>, i: int)
    requires Distinct(hs) && 0 <= i < |hs|
    ensures Distinct(hs[..i] + hs[i + 1..])
  {
    var hs' := hs[..i] + hs[i + 1..];
    forall x, y | 0 <= x < y < |hs'| ensures hs'[x] != hs'[y] {
      var x', y' := if x < i then x else x + 1, if y < i then y else y + 1;
      assert hs'[x] == hs[x'] && hs'[y] == hs[y'] && x' < y';
    }
  }

  /** The pointers of one remaining node after the unlinking of the i-th node. */
  /** In a sequence without repetitions, the element at i occurs nowhere else. */
  lemma NotElsewhere<T>(hs: seq<T>, i: int)
    requires Distinct(hs) && 0 <= i < |hs|
    ensures hs[i] !in hs[..i] + hs[i + 1..]
  {
    var r := hs[..i] + hs[i + 1..];
    forall x | 0 <= x < |r| ensures r[x] != hs[i] {
      assert r[x] == hs[if x < i then x else x + 1];
    }
  }

  lemma UnlinkOne(hs: seq<int>, nexts: seq<int>, prevs: seq<int>, nexts': seq<int>, prevs': seq<int>, i: int, j: int)
    requires Distinct(hs) && 0 <= i < |hs| && 0 <= j < |hs| - 1
    requires forall x :: 0 <= x < |hs| ==> 0 <= hs[x] < |nexts| && hs[x] < |prevs|
    requires forall x {:trigger nexts[hs[x]]} :: 0 <= x < |hs| ==> nexts[hs[x]] == Succ(hs, x)
    requires forall x {:trigger prevs[hs[x]]} :: 0 <= x < |hs| ==> prevs[hs[x]] == Pred(hs, x)
    requires nexts' == if Pred(hs, i) == Root then nexts else nexts[Pred(hs, i) := Succ(hs, i)]
    requires prevs' == if Succ(hs, i) == Root then prevs else prevs[Succ(hs, i) := Pred(hs, i)]
    ensures var hs' := hs[..i] + hs[i + 1..];
      nexts'[hs'[j]] == Succ(hs', j) && prevs'[hs'[j]] == Pred(hs', j)
  {
    var hs' := hs[..i] + hs[i + 1..];
    var j' := if j < i then j else j + 1;
    assert hs'[j] == hs[j'];
    if j + 1 < |hs'| {
      assert hs'[j + 1] == hs[if j + 1 < i then j + 1 else j + 2];
    }
    if j > 0 {
      assert hs'[j - 1] == hs[if j - 1 < i then j - 1 else j];
    }
    assert nexts[hs[j']] == Succ(hs, j') && prevs[hs[j']] == Pred(hs, j');
  }

  /**
   * Unlinking the i-th node h: with a := h._next and b := h._prev, the
   * assignments a._prev = b and b._next = a (where an assignment to the
   * cache's own _prev or _next moves tail or head) leave the list without h.
   */
  lemma {:induction false} UnlinkChained(hs: seq<int>, nexts: seq<int>, prevs: seq<int>, head: int, tail: int, i: int,
                                         nexts': seq<int>, prevs': seq<int>, head': int, tail': int)
    requires Chained(hs, nexts, prevs, head, tail)
    requires 0 <= i < |hs|
    requires nexts' == if Pred(hs, i) == Root then nexts else nexts[Pred(hs, i) := Succ(hs, i)]
    requires prevs' == if Succ(hs, i) == Root then prevs else prevs[Succ(hs, i) := Pred(hs, i)]
    requires head' == if Pred(hs, i) == Root then Succ(hs, i) else head
    requires tail' == if Succ(hs, i) == Root then Pred(hs, i) else tail
    ensures Chained(hs[..i] + hs[i + 1..], nexts', prevs', head', tail')
  {
    var hs' := hs[..i] + hs[i + 1..];
    DistinctRemove(hs, i);
    forall j | 0 <= j < |hs'|
      ensures nexts'[hs'[j]] == Succ(hs', j) && prevs'[hs'[j]] == Pred(hs', j)
    {
      UnlinkOne(hs, nexts, prevs, nexts', prevs', i, j);
    }
    forall j | 0 <= j < |hs'| ensures 0 <= hs'[j] < |nexts'| && hs'[j] < |prevs'| {
      assert hs'[j] == hs[if j < i then j else j + 1];
    }
    if hs' != [] {
      assert hs'[0] == hs[if i == 0 then 1 else 0];
      assert hs'[|hs'| - 1] == hs[if i == |hs| - 1 then |hs| - 2 else |hs| - 1];
    }
  }

  /**
   * Pushing a node h that is not in the list at the head: with p := the
   * cache's _next, the assignments p._prev = h, h._next = p, h._prev = the
   * cache and the cache's _next = h give the list h followed by the old one.
   */
  lemma {:induction false} PushChained(hs: seq<int>, nexts: seq<int>, prevs: seq<int>, head: int, tail: int, h: int,
                                       nexts': seq<int>, prevs': seq<int>, tail': int)
    requires Chained(hs, nexts, prevs, head, tail)
    requires 0 <= h < |nexts| && h < |prevs| && h !in hs
    requires nexts' == nexts[h := head]
    requires prevs' == (if head == Root then prevs else prevs[head := h])[h := Root]
    requires tail' == if head == Root then h else tail
    ensures Chained([h] + hs, nexts', prevs', h, tail')
  {
    var hs' := [h] + hs;
    assert Distinct(hs') by {
      forall x, y | 0 <= x < y < |hs'| ensures hs'[x] != hs'[y] {
        assert hs'[y] == hs[y - 1];
        if x > 0 {
          assert hs'[x] == hs[x - 1];
        }
      }
    }
    forall j | 0 <= j < |hs'|
      ensures nexts'[hs'[j]] == Succ(hs', j) && prevs'[hs'[j]] == Pred(hs', j)
    {
      if j > 0 {
        assert hs'[j] == hs[j - 1] && hs'[j] != h;
        assert nexts[hs[j - 1]] == Succ(hs, j - 1);
        assert prevs[hs[j - 1]] == Pred(hs, j - 1);
        if j > 1 {
          assert hs'[j - 1] == hs[j - 2];
        }
        if j < |hs| {
          assert hs'[j + 1] == hs[j];
        }
      } else if hs != [] {
        assert hs'[1] == hs[0];
      }
    }
  }

  /**
   * Cutting the list after its (j-1)-th node p: the assignments
   * cache._prev = p and p._next = the cache keep the first j nodes.
   */
  lemma {:induction false} TruncateChained(hs: seq<int>, nexts: seq<int>, prevs: seq<int>, head: int, tail: int, j: int)
    requires Chained(hs, nexts, prevs, head, tail)
    requires 0 < j <= |hs|
    ensures Chained(hs[..j], nexts[hs[j - 1] := Root], prevs, head, hs[j - 1])
  {
    var hs' := hs[..j];
    forall x | 0 <= x < j
      ensures nexts[hs[j - 1] := Root][hs'[x]] == Succ(hs', x)
    {
      if x < j - 1 {
        assert hs[x] != hs[j - 1];
      }
    }
  }
}
