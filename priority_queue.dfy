/** The priority queue of the route search: an array of items kept in
    ascending order of `priority` by pushing the new item and then sorting
    the whole array with a stable sort. */
module Queue {
  import opened Common

  /** A queue entry: whatever was enqueued, and its numeric priority. */
  datatype Item<T> = Item(payload: T, priority: int)

  ghost predicate Sorted<T>(s: seq<Item<T>>)
  {
    forall i, j :: 0 <= i < j < |s| ==> s[i].priority <= s[j].priority
  }

  /** The place where a stable sort puts `x` when it is appended to `s`:
      just after the last entry, counted from the back, whose priority is
      not larger than that of `x`. */
  function InsertionIndex<T>(s: seq<Item<T>>, x: Item<T>): (k: nat)
    ensures k <= |s|
    ensures forall i :: k <= i < |s| ==> x.priority < s[i].priority
    ensures Sorted(s) ==> forall i :: 0 <= i < k ==> s[i].priority <= x.priority
  {
    if s == [] then 0
    else if s[|s| - 1].priority <= x.priority then |s|
    else InsertionIndex(s[..|s| - 1], x)
  }

  /** A stable sort by ascending priority (insertion sort, taking the
      entries from left to right); it stands for `Array.prototype.sort`
      with the comparator `(a, b) => a.priority - b.priority`. */
  function SortByPriority<T>(s: seq<Item<T>>): (r: seq<Item<T>>)
    ensures Sorted(r)
    ensures multiset(r) == multiset(s)
  {
    if s == [] then []
    else
      var sorted, x := SortByPriority(s[..|s| - 1]), s[|s| - 1];
      var k := InsertionIndex(sorted, x);
      InsertKeepsSorted(sorted, x, k);
      assert sorted == sorted[..k] + sorted[k..];
      assert s == s[..|s| - 1] + [x];
      sorted[..k] + [x] + sorted[k..]
  }

  /** Inserting an entry at its insertion index keeps an array sorted. */
  lemma InsertKeepsSorted<T>(s: seq<Item<T>>, x: Item<T>, k: nat)
    requires Sorted(s) && k == InsertionIndex(s, x)
    ensures Sorted(s[..k] + [x] + s[k..])
  {
    var r := s[..k] + [x] + s[k..];
    forall i, j | 0 <= i < j < |r|
      ensures r[i].priority <= r[j].priority
    {
      if j < k {
        assert r[i] == s[i] && r[j] == s[j];
      } else if j == k {
        assert r[i] == s[i];
      } else if i < k {
        assert r[i] == s[i] && r[j] == s[j - 1];
      } else if i == k {
        assert r[j] == s[j - 1];
      } else {
        assert r[i] == s[i - 1] && r[j] == s[j - 1];
      }
    }
  }

  /** One step of the sort: the last entry is inserted into the sorted rest. */
  lemma SortStep<T>(s: seq<Item<T>>)
    requires s != []
    ensures var sorted := SortByPriority(s[..|s| - 1]);
            SortByPriority(s) == sorted[..InsertionIndex(sorted, s[|s| - 1])] + [s[|s| - 1]]
                                 + sorted[InsertionIndex(sorted, s[|s| - 1])..]
  {
  }

  /** An entry no smaller than the last one goes to the end. */
  lemma InsertionIndexAtEnd<T>(s: seq<Item<T>>, x: Item<T>)
    requires s != [] ==> s[|s| - 1].priority <= x.priority
    ensures InsertionIndex(s, x) == |s|
  {
  }

  /** Dropping the last entry of a sorted array leaves it sorted, and that
      entry is no smaller than the one before it. */
  lemma SortedInit<T>(s: seq<Item<T>>)
    requires Sorted(s) && s != []
    ensures Sorted(s[..|s| - 1])
    ensures |s| >= 2 ==> s[|s| - 2].priority <= s[|s| - 1].priority
  {
  }

  /** Sorting an already sorted array changes nothing. */
  lemma {:induction false} SortKeepsSorted<T>(s: seq<Item<T>>)
    requires Sorted(s)
    ensures SortByPriority(s) == s
  {
    if s != [] {
      var prefix, last := s[..|s| - 1], s[|s| - 1];
      calc {
        SortByPriority(s);
        { SortStep(s); }
        SortByPriority(prefix)[..InsertionIndex(SortByPriority(prefix), last)] + [last]
          + SortByPriority(prefix)[InsertionIndex(SortByPriority(prefix), last)..];
        { SortedInit(s); SortKeepsSorted(prefix); InsertionIndexAtEnd(prefix, last); }
        prefix[..|prefix|] + [last] + prefix[|prefix|..];
        { assert prefix[..|prefix|] == prefix && prefix[|prefix|..] == []; }
        prefix + [last];
        s;
      }
    }
  }

  /** Pushing `x` onto a sorted array and sorting it inserts `x` behind
      every entry of equal or smaller priority and in front of every entry
      of larger priority; nothing else moves. In particular entries of equal
      priority leave the queue in the order they entered it. */
  lemma EnqueueInsertsAfterTies<T>(s: seq<Item<T>>, x: Item<T>)
    requires Sorted(s)
    ensures var k := InsertionIndex(s, x);
            && SortByPriority(s + [x]) == s[..k] + [x] + s[k..]
            && (forall i :: 0 <= i < k ==> s[i].priority <= x.priority)
            && (forall i :: k <= i < |s| ==> x.priority < s[i].priority)
  {
    SortKeepsSorted(s);
    assert (s + [x])[..|s|] == s;
  }

  class PriorityQueue<T> {
    var items: seq<Item<T>>

    /** The queue is kept in ascending order of priority. */
    ghost predicate Valid()
      reads this
    {
      Sorted(items)
    }

    constructor ()
      ensures Valid() && items == []
    {
      items := [];
    }

    /** Push the item, then sort the array. */
    method Enqueue(item: Item<T>)
      requires Valid()
      modifies this
      ensures Valid()
      ensures items == SortByPriority(old(items) + [item])
      ensures var k := InsertionIndex(old(items), item);
              items == old(items)[..k] + [item] + old(items)[k..]
      ensures multiset(items) == multiset(old(items)) + multiset{item}
      ensures |items| == |old(items)| + 1
    {
      EnqueueInsertsAfterTies(items, item);
      items := items + [item];
      items := SortByPriority(items);
    }

    /** Remove and return the first item, or `null` when there is none. */
    method Dequeue() returns (r: Option<Item<T>>)
      requires Valid()
      modifies this
      ensures Valid()
      ensures old(items) == [] ==> r == None && items == old(items)
      ensures old(items) != [] ==> r == Some(old(items)[0]) && items == old(items)[1..]
      ensures r.Some? ==> forall it :: it in old(items) ==> r.value.priority <= it.priority
    {
      if IsEmpty() {
        return None;
      }
      r := Some(items[0]);
      items := items[1..];
    }

    function Size(): (sz: nat)
      reads this
      ensures sz == 0 <==> items == []
    {
      |items|
    }

    function IsEmpty(): (empty: bool)
      reads this
      ensures empty <==> Size() == 0
      ensures empty <==> items == []
    {
      |items| == 0
    }
  }
}
