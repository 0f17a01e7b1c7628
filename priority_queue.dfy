/**
 * The lazy-deletion priority queue `PriorityQueue` of util/voronoi_fortune_algorithm.py.
 * Entries are (key, count, item) with the key (item.x, item.y) and a running count
 * breaking ties in insertion order; `remove_entry` marks an entry 'Removed' in place
 * and `pop` skips such entries. The heap itself is the library's `heapq`: here the
 * entries are kept as a sequence and `pop` takes the least one.
 */
module PriorityQueues {
  import opened Wrappers

  /** A queue entry; an item None is the 'Removed' marker. */
  datatype Entry<T> = Entry(key: (real, real), count: nat, item: Option<T>)

  /** The order heapq compares entries in: key first, then count. */
  predicate Before<T>(a: Entry<T>, b: Entry<T>)
  {
    a.key.0 < b.key.0 ||
    (a.key.0 == b.key.0 && (a.key.1 < b.key.1 || (a.key.1 == b.key.1 && a.count < b.count)))
  }

  lemma BeforeTotal<T>(a: Entry<T>, b: Entry<T>)
    requires a.count != b.count
    ensures Before(a, b) || Before(b, a)
  {
  }

  ghost predicate DistinctCounts<T>(s: seq<Entry<T>>)
  {
    forall i, j :: 0 <= i < j < |s| ==> s[i].count != s[j].count
  }

  /** e is not preceded by any entry of s. */
  ghost predicate Least<T>(e: Entry<T>, s: seq<Entry<T>>)
  {
    forall i :: 0 <= i < |s| ==> !Before(s[i], e)
  }

  /** e is not preceded by any live entry of s. */
  ghost predicate LeastLive<T>(e: Entry<T>, s: seq<Entry<T>>)
  {
    forall i :: 0 <= i < |s| && s[i].item.Some? ==> !Before(s[i], e)
  }

  ghost predicate NoLive<T>(s: seq<Entry<T>>)
  {
    forall i :: 0 <= i < |s| ==> s[i].item.None?
  }

  /** The live entry `pop` returns: the least entry not marked 'Removed', if any. */
  function MinLive<T>(s: seq<Entry<T>>): (m: Option<Entry<T>>)
    ensures m.Some? ==> m.value in s && m.value.item.Some? && LeastLive(m.value, s)
    ensures m.None? <==> NoLive(s)
  {
    if s == [] then None
    else
      var t := MinLive(s[1..]);
      assert forall i :: 0 < i < |s| ==> s[i] == s[1..][i - 1];
      if s[0].item.None? then t
      else if t.None? || Before(s[0], t.value) then Some(s[0])
      else t
  }

  /** The minimal live entry is unique once counts are distinct. */
  lemma LeastLiveUnique<T>(s: seq<Entry<T>>, a: Entry<T>, b: Entry<T>)
    requires DistinctCounts(s)
    requires a in s && a.item.Some? && LeastLive(a, s)
    requires b in s && b.item.Some? && LeastLive(b, s)
    ensures a == b
  {
    var i :| 0 <= i < |s| && s[i] == a;
    var j :| 0 <= j < |s| && s[j] == b;
    if i != j {
      BeforeTotal(a, b);
    }
  }

  /** The entries of s strictly after w, in their order. */
  function Above<T>(s: seq<Entry<T>>, w: Entry<T>): (r: seq<Entry<T>>)
    ensures forall i :: 0 <= i < |r| ==> r[i] in s && Before(w, r[i])
    ensures forall i :: 0 <= i < |s| && Before(w, s[i]) ==> s[i] in r
    ensures |r| <= |s|
  {
    if s == [] then []
    else
      assert forall i :: 0 < i < |s| ==> s[i] == s[1..][i - 1];
      (if Before(w, s[0]) then [s[0]] else []) + Above(s[1..], w)
  }

  /** Taking out the least entry leaves exactly the entries after it. */
  lemma {:induction false} RemoveLeast<T>(s: seq<Entry<T>>, k: nat)
    requires k < |s| && DistinctCounts(s) && Least(s[k], s)
    ensures s[..k] + s[k + 1..] == Above(s, s[k])
  {
    if k == 0 {
      AboveAll(s[1..], s[0]);
    } else {
      var t := s[1..];
      assert t[k - 1] == s[k];
      TailKeeps(s, s[k]);
      RemoveLeast(t, k - 1);
      BeforeTotal(s[0], s[k]);
      SplitAround(s, k);
    }
  }

  /** Dropping the first entry keeps distinct counts and an entry least. */
  lemma TailKeeps<T>(s: seq<Entry<T>>, e: Entry<T>)
    requires s != [] && DistinctCounts(s) && Least(e, s)
    ensures DistinctCounts(s[1..]) && Least(e, s[1..])
  {
    forall i | 0 <= i < |s[1..]| ensures !Before(s[1..][i], e) {
      assert s[1..][i] == s[i + 1];
    }
  }

  lemma SplitAround<T>(s: seq<Entry<T>>, k: nat)
    requires 0 < k < |s|
    ensures s[..k] + s[k + 1..] == [s[0]] + (s[1..][..k - 1] + s[1..][k..])
  {
    assert s[1..][..k - 1] == s[1..k];
    assert s[1..][k..] == s[k + 1..];
    assert s[..k] == [s[0]] + s[1..k];
  }

  /** When every entry of s comes after w, Above keeps them all. */
  lemma {:induction false} AboveAll<T>(s: seq<Entry<T>>, w: Entry<T>)
    requires forall i :: 0 <= i < |s| ==> s[i].count != w.count && !Before(s[i], w)
    ensures Above(s, w) == s
  {
    if s != [] {
      BeforeTotal(w, s[0]);
      AboveAll(s[1..], w);
    }
  }

  lemma {:induction false} AboveTwice<T>(s: seq<Entry<T>>, v: Entry<T>, w: Entry<T>)
    requires Before(v, w)
    ensures Above(Above(s, v), w) == Above(s, w)
  {
    if s != [] {
      AboveTwice(s[1..], v, w);
      var t := Above(s[1..], v);
      if Before(v, s[0]) {
        assert Above(s, v) == [s[0]] + t;
        assert ([s[0]] + t)[1..] == t;
      } else {
        assert Above(s, v) == t;
      }
    }
  }

  /** Above keeps a subsequence: distinct counts stay distinct. */
  lemma {:induction false} AboveDistinct<T>(s: seq<Entry<T>>, w: Entry<T>)
    requires DistinctCounts(s)
    ensures DistinctCounts(Above(s, w))
  {
    if s != [] {
      assert DistinctCounts(s[1..]) by {
        forall i, j | 0 <= i < j < |s[1..]| ensures s[1..][i].count != s[1..][j].count {
          assert s[1..][i] == s[i + 1] && s[1..][j] == s[j + 1];
        }
      }
      AboveDistinct(s[1..], w);
      var r := Above(s, w);
      var t := Above(s[1..], w);
      if Before(w, s[0]) {
        assert r == [s[0]] + t;
        forall i, j | 0 <= i < j < |r| ensures r[i].count != r[j].count {
          if i > 0 {
            assert r[i] == t[i - 1] && r[j] == t[j - 1];
          } else {
            assert r[j] == t[j - 1] && r[j] in s[1..];
            var m :| 0 <= m < |s[1..]| && s[1..][m] == r[j];
            assert s[m + 1] == r[j];
          }
        }
      } else {
        assert r == t;
      }
    }
  }

  /** The items of the live entries: the keys `entry_finder` must have. */
  function LiveItems<T>(s: seq<Entry<T>>): set<T>
  {
    set i | 0 <= i < |s| && s[i].item.Some? :: s[i].item.value
  }

  /**
   * The bookkeeping `pop` and `push` rely on: counts are distinct and below the
   * counter, and `entry_finder` maps exactly the live items, each to the count of
   * its entry.
   */
  ghost predicate Consistent<T>(pq: seq<Entry<T>>, finder: map<T, nat>, counter: nat)
  {
    DistinctCounts(pq) &&
    (forall i :: 0 <= i < |pq| ==> pq[i].count < counter) &&
    (forall i :: 0 <= i < |pq| && pq[i].item.Some? ==>
      pq[i].item.value in finder && finder[pq[i].item.value] == pq[i].count) &&
    finder.Keys == LiveItems(pq)
  }

  /** The entries with count c marked 'Removed', as `remove_entry` does through the shared entry. */
  function MarkRemoved<T>(s: seq<Entry<T>>, c: nat): (r: seq<Entry<T>>)
    ensures |r| == |s|
    ensures forall i :: 0 <= i < |s| ==>
      r[i] == (if s[i].count == c then s[i].(item := None) else s[i])
  {
    seq(|s|, i requires 0 <= i < |s| => if s[i].count == c then s[i].(item := None) else s[i])
  }

  lemma PushKeeps<T>(pq: seq<Entry<T>>, finder: map<T, nat>, counter: nat, item: T, k: (real, real))
    requires Consistent(pq, finder, counter) && item !in finder
    ensures Consistent(pq + [Entry(k, counter, Some(item))], finder[item := counter], counter + 1)
  {
    var pq' := pq + [Entry(k, counter, Some(item))];
    var finder' := finder[item := counter];
    assert forall i :: 0 <= i < |pq| ==> pq'[i] == pq[i];
    assert LiveItems(pq') == LiveItems(pq) + {item} by {
      forall t | t in LiveItems(pq') ensures t in LiveItems(pq) + {item} {
        var i :| 0 <= i < |pq'| && pq'[i].item == Some(t);
        if i < |pq| {
          assert pq[i].item == Some(t);
        }
      }
      forall t | t in LiveItems(pq) ensures t in LiveItems(pq') {
        var i :| 0 <= i < |pq| && pq[i].item == Some(t);
        assert pq'[i].item == Some(t);
      }
      assert pq'[|pq|].item == Some(item);
    }
  }

  lemma RemoveKeeps<T>(pq: seq<Entry<T>>, finder: map<T, nat>, counter: nat, item: T)
    requires Consistent(pq, finder, counter) && item in finder
    ensures Consistent(MarkRemoved(pq, finder[item]), finder - {item}, counter)
  {
    var c := finder[item];
    var pq', finder' := MarkRemoved(pq, c), finder - {item};
    forall i | 0 <= i < |pq'| && pq'[i].item.Some?
      ensures pq'[i].item.value in finder' && finder'[pq'[i].item.value] == pq'[i].count
    {
      assert pq'[i] == pq[i];
      assert pq[i].item.value != item;
    }
    assert LiveItems(pq') == LiveItems(pq) - {item} by {
      forall t | t in LiveItems(pq') ensures t in LiveItems(pq) - {item} {
        var i :| 0 <= i < |pq'| && pq'[i].item == Some(t);
        assert pq'[i] == pq[i];
      }
      forall t | t in LiveItems(pq) - {item} ensures t in LiveItems(pq') {
        var i :| 0 <= i < |pq| && pq[i].item == Some(t);
        assert pq[i].count != c;
        assert pq'[i].item == Some(t);
      }
    }
  }

  lemma PopKeeps<T>(pq: seq<Entry<T>>, finder: map<T, nat>, counter: nat, w: Entry<T>)
    requires Consistent(pq, finder, counter) && w in pq && w.item.Some? && LeastLive(w, pq)
    ensures Consistent(Above(pq, w), finder - {w.item.value}, counter)
  {
    var pq', finder' := Above(pq, w), finder - {w.item.value};
    AboveDistinct(pq, w);
    var iw :| 0 <= iw < |pq| && pq[iw] == w;
    forall i | 0 <= i < |pq'| ensures pq'[i].count < counter {
      assert pq'[i] in pq;
    }
    forall i | 0 <= i < |pq'| && pq'[i].item.Some?
      ensures pq'[i].item.value in finder' && finder'[pq'[i].item.value] == pq'[i].count
    {
      var j :| 0 <= j < |pq| && pq[j] == pq'[i];
      assert j != iw;
    }
    AboveLiveItems(pq, finder, counter, w, iw);
  }

  lemma AboveLiveItems<T>(pq: seq<Entry<T>>, finder: map<T, nat>, counter: nat, w: Entry<T>, iw: nat)
    requires Consistent(pq, finder, counter) && iw < |pq| && pq[iw] == w && w.item.Some? && LeastLive(w, pq)
    ensures LiveItems(Above(pq, w)) == LiveItems(pq) - {w.item.value}
  {
    var pq' := Above(pq, w);
    forall t | t in LiveItems(pq') ensures t in LiveItems(pq) - {w.item.value} {
      var i :| 0 <= i < |pq'| && pq'[i].item == Some(t);
      var j :| 0 <= j < |pq| && pq[j] == pq'[i];
      assert j != iw;
    }
    forall t | t in LiveItems(pq) - {w.item.value} ensures t in LiveItems(pq') {
      var i :| 0 <= i < |pq| && pq[i].item == Some(t);
      assert i != iw;
      BeforeTotal(w, pq[i]);
      assert pq[i] in pq';
      var j :| 0 <= j < |pq'| && pq'[j] == pq[i];
    }
  }

  class PriorityQueue<T(==)> {
    var pq: seq<Entry<T>>
    var entryFinder: map<T, nat>
    /** The next value of `itertools.count()`. */
    var counter: nat
    /** The priority of an item: (item.x, item.y) in the source. */
    const key: T -> (real, real)

    ghost predicate Valid()
      reads this
    {
      Consistent(pq, entryFinder, counter)
    }

    constructor(key: T -> (real, real))
      ensures Valid() && this.key == key
      ensures pq == [] && entryFinder == map[] && counter == 0
    {
      this.key := key;
      pq := [];
      entryFinder := map[];
      counter := 0;
    }

    /** An item already queued is ignored; otherwise it is queued with the next count. */
    method Push(item: T)
      requires Valid()
      modifies this
      ensures Valid()
      ensures item in old(entryFinder) ==>
        pq == old(pq) && entryFinder == old(entryFinder) && counter == old(counter)
      ensures item !in old(entryFinder) ==>
        pq == old(pq) + [Entry(key(item), old(counter), Some(item))] &&
        entryFinder == old(entryFinder)[item := old(counter)] && counter == old(counter) + 1
    {
      if item in entryFinder {
        return;
      }
      var count := counter;
      PushKeeps(pq, entryFinder, count, item, key(item));
      counter := counter + 1;
      entryFinder := entryFinder[item := count];
      pq := pq + [Entry(key(item), count, Some(item))];
    }

    /** remove_entry: forgets the item and marks its entry 'Removed'; KeyError (false) when absent. */
    method RemoveEntry(item: T) returns (ok: bool)
      requires Valid()
      modifies this
      ensures Valid()
      ensures ok <==> item in old(entryFinder)
      ensures !ok ==> pq == old(pq) && entryFinder == old(entryFinder) && counter == old(counter)
      ensures ok ==>
        pq == MarkRemoved(old(pq), old(entryFinder)[item]) &&
        entryFinder == old(entryFinder) - {item} && counter == old(counter)
    {
      if item !in entryFinder {
        return false;
      }
      RemoveKeeps(pq, entryFinder, counter, item);
      pq := MarkRemoved(pq, entryFinder[item]);
      entryFinder := entryFinder - {item};
      ok := true;
    }

    /**
     * pop: the item of the least live entry; every entry up to and including it
     * leaves the queue. None (KeyError) when no live entry is left, and then the
     * queue is empty.
     */
    method Pop() returns (r: Option<T>)
      requires Valid()
      modifies this
      ensures Valid() && counter == old(counter)
      ensures MinLive(old(pq)).None? ==>
        r.None? && pq == [] && entryFinder == old(entryFinder)
      ensures MinLive(old(pq)).Some? ==>
        var w := MinLive(old(pq)).value;
        r == w.item && pq == Above(old(pq), w) && entryFinder == old(entryFinder) - {w.item.value}
    {
      ghost var w := MinLive(pq);
      r := PopLive();
      if w.Some? {
        PopKeeps(old(pq), old(entryFinder), counter, w.value);
      }
    }

    /** top: as pop, then the item is pushed again with a fresh count. */
    method Top() returns (r: Option<T>)
      requires Valid()
      modifies this
      ensures Valid()
      ensures r == (if MinLive(old(pq)).Some? then MinLive(old(pq)).value.item else None)
      ensures r.None? ==> pq == [] && entryFinder == old(entryFinder) && counter == old(counter)
      ensures pq == AfterTop(old(pq), key, old(counter))
      ensures r.Some? ==>
        pq == Above(old(pq), MinLive(old(pq)).value) + [Entry(key(r.value), old(counter), r)] &&
        entryFinder == old(entryFinder)[r.value := old(counter)] &&
        counter == old(counter) + 1
    {
      r := Pop();
      if r.Some? {
        ReplaceKey(old(entryFinder), r.value, old(counter));
        Push(r.value);
      }
    }

    /** empty: no entry at all, live or 'Removed'; an empty queue has nothing to pop. */
    function Empty(): (e: bool)
      reads this
      ensures e ==> MinLive(pq).None?
    {
      |pq| == 0
    }

    /** The loop of pop: drops least entries until one is live. */
    method PopLive() returns (r: Option<T>)
      requires Valid()
      modifies this
      ensures counter == old(counter)
      ensures MinLive(old(pq)).None? ==>
        r.None? && pq == [] && entryFinder == old(entryFinder)
      ensures MinLive(old(pq)).Some? ==>
        var w := MinLive(old(pq)).value;
        r == w.item && pq == Above(old(pq), w) && entryFinder == old(entryFinder) - {w.item.value}
    {
      ghost var start := pq;
      // the last entry dropped so far, always a 'Removed' one
      ghost var dropped: Option<Entry<T>> := None;
      while |pq| > 0
        invariant counter == old(counter) && entryFinder == old(entryFinder)
        invariant DistinctCounts(start) && start == old(pq)
        invariant dropped.None? ==> pq == start
        invariant dropped.Some? ==> pq == Above(start, dropped.value)
        invariant dropped.Some? ==>
          forall i :: 0 <= i < |start| && start[i].item.Some? ==> Before(dropped.value, start[i])
        decreases |pq|
      {
        if dropped.Some? {
          AboveDistinct(start, dropped.value);
        }
        var k := LeastIndex(pq);
        var e := pq[k];
        RemoveLeast(pq, k);
        if dropped.Some? {
          AboveTwice(start, dropped.value, e);
        }
        pq := pq[..k] + pq[k + 1..];
        if e.item.Some? {
          LiveInStart(start, dropped, e);
          LeastLiveUnique(start, e, MinLive(start).value);
          entryFinder := entryFinder - {e.item.value};
          return e.item;
        }
        DroppedBefore(start, dropped, e);
        dropped := Some(e);
      }
      if dropped.Some? {
        NothingLive(start, dropped.value);
      }
      r := None;
    }

    static function LeastIndex(s: seq<Entry<T>>): (k: nat)
      requires |s| > 0
      ensures k < |s| && Least(s[k], s)
    {
      if |s| == 1 then 0
      else
        var j := 1 + LeastIndex(s[1..]);
        assert forall i :: 0 < i < |s| ==> s[i] == s[1..][i - 1];
        if Before(s[j], s[0]) then j else 0
    }
  }

  /** The queue `top` leaves behind: what `pop` leaves, then the popped entry's item again at count c. */
  function AfterTop<T>(s: seq<Entry<T>>, key: T -> (real, real), c: nat): seq<Entry<T>>
  {
    var m := MinLive(s);
    if m.None? then [] else Above(s, m.value) + [Entry(key(m.value.item.value), c, m.value.item)]
  }

  /**
   * The entry `top` pushes again has the newest count, so it comes after every other
   * entry with the same key: among equal keys it is now the last to be popped.
   */
  lemma TopQueuesLast<T>(s: seq<Entry<T>>, finder: map<T, nat>, counter: nat, key: T -> (real, real))
    requires Consistent(s, finder, counter) && MinLive(s).Some?
    ensures var r := AfterTop(s, key, counter);
      |r| >= 1 && r[|r| - 1].item == MinLive(s).value.item &&
      forall i :: 0 <= i < |r| - 1 && r[i].key == r[|r| - 1].key ==> Before(r[i], r[|r| - 1])
  {
    var r := AfterTop(s, key, counter);
    var w := MinLive(s).value;
    forall i | 0 <= i < |r| - 1 && r[i].key == r[|r| - 1].key
      ensures Before(r[i], r[|r| - 1])
    {
      assert r[i] in Above(s, w);
      var j :| 0 <= j < |Above(s, w)| && Above(s, w)[j] == r[i];
      assert r[i] in s;
    }
  }

  lemma ReplaceKey<T>(m: map<T, nat>, k: T, v: nat)
    ensures (m - {k})[k := v] == m[k := v]
  {
  }

  /** The least remaining entry, when live, is the least live entry of the whole queue. */
  lemma LiveInStart<T>(start: seq<Entry<T>>, dropped: Option<Entry<T>>, e: Entry<T>)
    requires dropped.None? ==> e in start && Least(e, start)
    requires dropped.Some? ==> e in Above(start, dropped.value) && Least(e, Above(start, dropped.value))
    requires dropped.Some? ==>
      forall i :: 0 <= i < |start| && start[i].item.Some? ==> Before(dropped.value, start[i])
    ensures e in start && LeastLive(e, start)
  {
    if dropped.Some? {
      var above := Above(start, dropped.value);
      assert e in start;
      forall i | 0 <= i < |start| && start[i].item.Some? ensures !Before(start[i], e) {
        InAbove(start, dropped.value, e, i);
      }
    }
  }

  lemma InAbove<T>(start: seq<Entry<T>>, d: Entry<T>, e: Entry<T>, i: nat)
    requires i < |start| && Before(d, start[i]) && Least(e, Above(start, d))
    ensures !Before(start[i], e)
  {
    var above := Above(start, d);
    assert start[i] in above;
    var j :| 0 <= j < |above| && above[j] == start[i];
  }

  /** A dropped 'Removed' entry precedes every live entry. */
  lemma DroppedBefore<T>(start: seq<Entry<T>>, dropped: Option<Entry<T>>, e: Entry<T>)
    requires DistinctCounts(start) && e.item.None?
    requires dropped.None? ==> e in start && Least(e, start)
    requires dropped.Some? ==> e in Above(start, dropped.value) && Least(e, Above(start, dropped.value))
    requires dropped.Some? ==>
      forall i :: 0 <= i < |start| && start[i].item.Some? ==> Before(dropped.value, start[i])
    ensures forall i :: 0 <= i < |start| && start[i].item.Some? ==> Before(e, start[i])
  {
    var j :| 0 <= j < |start| && start[j] == e;
    forall i | 0 <= i < |start| && start[i].item.Some? ensures Before(e, start[i]) {
      assert i != j;
      BeforeTotal(e, start[i]);
      if dropped.Some? {
        InAbove(start, dropped.value, e, i);
      }
    }
  }

  lemma NothingLive<T>(start: seq<Entry<T>>, dropped: Entry<T>)
    requires Above(start, dropped) == []
    requires forall i :: 0 <= i < |start| && start[i].item.Some? ==> Before(dropped, start[i])
    ensures NoLive(start)
  {
  }
}
