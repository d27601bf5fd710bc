/** pqueue/topkqueue.go: a min-priority queue capped at k items that keeps
    the k highest priorities pushed into it. The underlying PQueue is
    represented by the multiset of its items (held in a sequence); its
    Head/Pop return an item of smallest priority. */
module TopK {

  datatype Item<T> = Item(value: T, priority: real)

  /** the position of the first item of smallest priority */
  function MinIndex<T>(s: seq<Item<T>>): (m: nat)
    requires |s| > 0
    ensures m < |s|
    ensures forall i :: 0 <= i < |s| ==> s[m].priority <= s[i].priority
  {
    if |s| == 1 then 0
    else
      var m := MinIndex(s[1..]) + 1;
      if s[0].priority <= s[m].priority then 0 else m
  }

  function RemoveAt<T>(s: seq<Item<T>>, i: nat): (r: seq<Item<T>>)
    requires i < |s|
    ensures |r| == |s| - 1
    ensures multiset(r) + multiset{s[i]} == multiset(s)
  {
    assert s == s[..i] + [s[i]] + s[i + 1..];
    s[..i] + s[i + 1..]
  }

  /** priorities in non-increasing order */
  predicate SortedDesc<T>(s: seq<Item<T>>)
  {
    forall i, j :: 0 <= i < j < |s| ==> s[i].priority >= s[j].priority
  }

  /** a draining loop's state: what has come out, highest priority first,
      and what is left, together the items it started from, nothing left
      ranking below what came out */
  ghost predicate Drained<T>(result: seq<Item<T>>, left: seq<Item<T>>, start: multiset<Item<T>>)
  {
    multiset(result) + multiset(left) == start && SortedDesc(result) &&
    forall r, y :: r in result && y in left ==> y.priority >= r.priority
  }

  /** Popping a lowest item and putting it in front keeps the draining
      state. */
  lemma DrainStep<T>(result: seq<Item<T>>, before: seq<Item<T>>, p: Item<T>, after: seq<Item<T>>, start: multiset<Item<T>>)
    requires Drained(result, before, start) && p in before
    requires forall i :: 0 <= i < |before| ==> p.priority <= before[i].priority
    requires multiset(after) + multiset{p} == multiset(before)
    ensures Drained([p] + result, after, start)
  {
    forall r | r in result ensures p.priority >= r.priority {
    }
    forall y | y in after ensures y.priority >= p.priority {
      assert y in multiset(before);
      var j :| 0 <= j < |before| && before[j] == y;
    }
    forall r, y | r in result && y in after ensures y.priority >= r.priority {
      assert y in multiset(before);
    }
    assert multiset([p] + result) == multiset{p} + multiset(result);
  }

  /** inserts it into a sequence sorted by non-increasing priority, after
      every item of priority at least its own */
  function InsertDesc<T>(sorted: seq<Item<T>>, it: Item<T>): (r: seq<Item<T>>)
    ensures multiset(r) == multiset(sorted) + multiset{it}
    ensures |r| == |sorted| + 1
  {
    if sorted == [] then [it]
    else if sorted[|sorted| - 1].priority >= it.priority then sorted + [it]
    else
      assert sorted == sorted[..|sorted| - 1] + [sorted[|sorted| - 1]];
      InsertDesc(sorted[..|sorted| - 1], it) + [sorted[|sorted| - 1]]
  }

  lemma {:induction false} InsertDescSorted<T>(sorted: seq<Item<T>>, it: Item<T>)
    requires SortedDesc(sorted)
    ensures SortedDesc(InsertDesc(sorted, it))
  {
    if sorted != [] && sorted[|sorted| - 1].priority < it.priority {
      var front := sorted[..|sorted| - 1];
      var last := sorted[|sorted| - 1];
      InsertDescSorted(front, it);
      var mid := InsertDesc(front, it);
      forall i | 0 <= i < |mid| ensures mid[i].priority >= last.priority {
        assert mid[i] in multiset(mid);
        if mid[i] != it {
          assert mid[i] in multiset(front);
          var j :| 0 <= j < |front| && front[j] == mid[i];
          assert sorted[j] == mid[i];
        }
      }
      AppendDesc(mid, last);
    } else if sorted != [] {
      AppendDesc(sorted, it);
    }
  }

  lemma AppendDesc<T>(s: seq<Item<T>>, last: Item<T>)
    requires SortedDesc(s)
    requires forall i :: 0 <= i < |s| ==> s[i].priority >= last.priority
    ensures SortedDesc(s + [last])
  {
    var r := s + [last];
    forall i, j | 0 <= i < j < |r| ensures r[i].priority >= r[j].priority {
      assert r[i] == s[i];
    }
  }

  /** the items of a queue in the order `Descending` pops them: a
      permutation sorted by non-increasing priority */
  function DescendingOrder<T>(items: seq<Item<T>>): (r: seq<Item<T>>)
    ensures multiset(r) == multiset(items) && |r| == |items|
    ensures SortedDesc(r)
  {
    if items == [] then []
    else
      var front := DescendingOrder(items[..|items| - 1]);
      InsertDescSorted(front, items[|items| - 1]);
      assert items == items[..|items| - 1] + [items[|items| - 1]];
      InsertDesc(front, items[|items| - 1])
  }

  /** `items` are the k highest-priority items of `pushed` (all of them when
      fewer than k were pushed), `dropped` the rest */
  ghost predicate TopKState<T>(items: seq<Item<T>>, dropped: seq<Item<T>>, pushed: seq<Item<T>>, k: nat)
  {
    multiset(items) + multiset(dropped) == multiset(pushed) &&
    (forall d, y :: d in dropped && y in items ==> d.priority <= y.priority) &&
    |items| == (if |pushed| < k then |pushed| else k)
  }

  /** A full queue that rejects an item no better than its minimum still
      holds the top k. */
  lemma RejectKeepsTopK<T>(items: seq<Item<T>>, dropped: seq<Item<T>>, pushed: seq<Item<T>>, k: nat, it: Item<T>)
    requires TopKState(items, dropped, pushed, k) && |items| == k >= 1
    requires forall i :: 0 <= i < |items| ==> items[i].priority >= it.priority
    ensures TopKState(items, dropped + [it], pushed + [it], k)
  {
    forall d, y | d in dropped + [it] && y in items ensures d.priority <= y.priority {
      if d == it {
        var j :| 0 <= j < |items| && items[j] == y;
      }
    }
  }

  /** Evicting the minimum of a full queue and inserting a better item keeps
      the top k. */
  lemma EvictKeepsTopK<T>(items: seq<Item<T>>, dropped: seq<Item<T>>, pushed: seq<Item<T>>, k: nat, it: Item<T>)
    requires TopKState(items, dropped, pushed, k) && |items| == k >= 1
    requires items[MinIndex(items)].priority < it.priority
    ensures var m := MinIndex(items);
      TopKState(RemoveAt(items, m) + [it], dropped + [items[m]], pushed + [it], k)
  {
    var m := MinIndex(items);
    var bottom := items[m];
    var rest := RemoveAt(items, m);
    forall y | y in rest ensures y in items {
      assert y in multiset(rest);
    }
    forall d, y | d in dropped + [bottom] && y in rest + [it] ensures d.priority <= y.priority {
      if y in rest {
        var j :| 0 <= j < |items| && items[j] == y;
        if d in dropped { assert y in items; }
      } else {
        assert y == it;
        if d in dropped { assert bottom in items; }
      }
    }
  }

  /** Inserting into a queue with room keeps the top k. */
  lemma AppendKeepsTopK<T>(items: seq<Item<T>>, dropped: seq<Item<T>>, pushed: seq<Item<T>>, k: nat, it: Item<T>)
    requires TopKState(items, dropped, pushed, k) && |items| < k
    ensures TopKState(items + [it], dropped, pushed + [it], k)
  {
    assert |multiset(items) + multiset(dropped)| == |items| + |dropped|;
    assert |multiset(pushed)| == |pushed|;
    assert dropped == [];
  }

  class TopKQueue<T(==)> {
    var items: seq<Item<T>>
    const k: nat
    /** every item ever pushed, and those pushed but not (or no longer) kept */
    ghost var pushed: seq<Item<T>>
    ghost var dropped: seq<Item<T>>

    ghost predicate Valid()
      reads this
    {
      k >= 1 && |items| <= k
    }

    /** the queue holds exactly the k highest-priority items pushed so far
        (fewer when fewer were pushed): what it holds plus what it dropped is
        everything pushed, and nothing dropped outranks anything held */
    ghost predicate HoldsTopK()
      reads this
    {
      TopKState(items, dropped, pushed, k)
    }

    constructor (k: nat)
      requires k >= 1
      ensures Valid() && HoldsTopK()
      ensures this.k == k && items == [] && pushed == []
    {
      this.k := k;
      items := [];
      pushed := [];
      dropped := [];
    }

    function Size(): (n: nat)
      reads this
      ensures n == |items|
    {
      |items|
    }

    /** `DryPush`: whether a Push with this priority would insert: the queue
        has room, or some held item ranks strictly below the new one. */
    function DryPush(priority: real): (b: bool)
      reads this
      requires Valid()
      ensures b <==> |items| < k || exists i :: 0 <= i < |items| && items[i].priority < priority
    {
      if |items| < k then true
      else
        var bottom := items[MinIndex(items)].priority;
        bottom < priority
    }

    /** `Push`: a rejected push changes nothing; an accepted push into a full
        queue first removes exactly one item of smallest priority. */
    method Push(value: T, priority: real)
      requires Valid()
      modifies this
      ensures Valid()
      ensures !old(DryPush(priority)) ==> items == old(items)
      ensures old(DryPush(priority)) && old(|items|) < k ==>
        items == old(items) + [Item(value, priority)]
      ensures old(DryPush(priority)) && old(|items|) == k ==>
        items == RemoveAt(old(items), MinIndex(old(items))) + [Item(value, priority)]
      ensures pushed == old(pushed) + [Item(value, priority)]
      ensures old(HoldsTopK()) ==> HoldsTopK()
    {
      var it := Item(value, priority);
      ghost var wasTop := HoldsTopK();
      if !DryPush(priority) {
        if wasTop { RejectKeepsTopK(items, dropped, pushed, k, it); }
        pushed := pushed + [it];
        dropped := dropped + [it];
        return;
      }
      if |items| == k {
        var m := MinIndex(items);
        if wasTop { EvictKeepsTopK(items, dropped, pushed, k, it); }
        dropped := dropped + [items[m]];
        items := RemoveAt(items, m);
      } else if wasTop {
        AppendKeepsTopK(items, dropped, pushed, k, it);
      }
      pushed := pushed + [it];
      items := items + [it];
    }

    /** `Pop` on the underlying PQueue: removes and returns an item of
        smallest priority. */
    method Pop() returns (r: Item<T>)
      requires Valid() && |items| > 0
      modifies this`items
      ensures Valid()
      ensures r in old(items)
      ensures forall i :: 0 <= i < |old(items)| ==> r.priority <= old(items)[i].priority
      ensures multiset(items) + multiset{r} == multiset(old(items))
      ensures |items| == |old(items)| - 1
    {
      var m := MinIndex(items);
      r := items[m];
      items := RemoveAt(items, m);
    }

    /** `Descending` (assumed, as pqueue.go is not part of this model): pops
        every item, so the queue ends empty and the items come out highest
        priority first. */
    method Descending() returns (result: seq<Item<T>>)
      requires Valid()
      modifies this`items
      ensures Valid() && items == []
      ensures multiset(result) == multiset(old(items))
      ensures SortedDesc(result)
    {
      result := [];
      while |items| > 0
        invariant Valid()
        invariant Drained(result, items, multiset(old(items)))
        decreases |items|
      {
        ghost var before := items;
        var p := Pop();
        DrainStep(result, before, p, items, multiset(old(items)));
        result := [p] + result;
      }
    }
  }
}
