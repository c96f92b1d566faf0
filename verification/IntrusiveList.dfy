/** The intrusive list: elements linked between a head and a tail node, a free list for reuse, and
  * registered iterators that are moved off elements before these leave the list. */
module IntrusiveList {
  import opened Chain

  class Iterator {
    var current: Node
    var next: Iterator?

    constructor (current: Node, next: Iterator?)
      ensures this.current == current && this.next == next
    {
      this.current, this.next := current, next;
    }
  }

  ghost predicate Marked(free: seq<Node>, mark: Node)
    reads free`prev
  {
    forall f <- free :: f.prev == mark
  }

  /** The registered iterators, the newest first. */
  ghost predicate Registered(first: Iterator?, iters: seq<Iterator>)
    reads iters`next
  {
    && first == (if iters == [] then null else iters[0])
    && (forall i :: 0 <= i < |iters| - 1 ==> iters[i].next == iters[i + 1])
    && (iters != [] ==> iters[|iters| - 1].next == null)
    && (forall i, j :: 0 <= i < |iters| && 0 <= j < |iters| && i != j ==> iters[i] != iters[j])
  }

  /** Every iterator is on an element of the list or on the tail. */
  ghost predicate Live(iters: seq<Iterator>, all: seq<Node>, head: Node)
    reads iters`current
  {
    forall it <- iters :: it.current in all && it.current != head
  }

  class List {
    const head: Node
    const tail: Node
    /** The address that no element has, written to the link of a freed element. */
    const mark: Node
    var freeList: Node?
    var size: nat
    var iterators: Iterator?
    ghost var all: seq<Node>
    ghost var free: seq<Node>
    ghost var iters: seq<Iterator>

    ghost predicate Valid()
      reads this, all, free, iters
    {
      && Chained(all) && Ends(all, head, tail) && head.prev == null && tail.next == null
      && ListFrom(freeList, free) && Marked(free, mark)
      && Separate(all, free, mark)
      && Registered(iterators, iters) && Live(iters, all, head)
      && size == |all| - 2
    }

    /** Neither on the list nor freed. */
    ghost predicate Loose(n: Node)
      reads this, n
    {
      n !in all && n !in free && n != mark && n.next == null && n.prev == null
    }

    constructor ()
      ensures Valid() && all == [head, tail] && free == [] && iters == [] && fresh(all)
    {
      var h := new Node();
      var t := new Node();
      var m := new Node();
      head, tail, mark, freeList, iterators, size := h, t, m, null, null, 0;
      all, free, iters := [h, t], [], [];
      new;
      h.next, t.prev := t, h;
    }

    /** Reuses a freed element, or makes a new one. */
    method AllocateElement() returns (n: Node)
      requires Valid()
      modifies this`freeList, this`free, free
      ensures Valid() && Loose(n)
      ensures if old(free) == [] then fresh(n) && free == [] else n == old(free)[0] && free == old(free)[1..]
    {
      if freeList != null {
        n := freeList;
        assert n == free[0] && n !in all;
        freeList := freeList.next;
        free := free[1..];
        n.next, n.prev := null, null;
      } else {
        n := new Node();
      }
    }

    /** Puts an element that is off the list on the free list, once. */
    method FreeElement(n: Node)
      requires Valid() && n != tail && n != mark && (n in all || n in free || Loose(n))
      modifies this`freeList, this`free, n
      ensures Valid() && free == if old(Loose(n)) then [n] + old(free) else old(free)
    {
      LinksOfLive(n);
      if n.prev != null || n.next != null {
        return;
      }
      n.prev := mark;
      n.next := freeList;
      freeList := n;
      free := [n] + free;
    }

    /** An element that is on the list or freed has a link. */
    lemma LinksOfLive(n: Node)
      requires Valid()
      ensures n in all && n != head ==> n.prev != null && n.prev != mark
      ensures n in all && n != tail ==> n.next != null
      ensures n in free ==> n.prev == mark
    {
      if n in all {
        var k :| 0 <= k < |all| && all[k] == n;
        assert k > 0 ==> n.prev == all[k - 1];
        assert k < |all| - 1 ==> n.next == all[k + 1];
      }
    }

    /** insert_before, `where` being element number `k`. */
    method PutBefore(what: Node, where: Node, ghost before: Node, ghost k: nat)
      requires Valid() && what !in all && what !in free && what != mark
      requires 0 < k < |all| && all[k] == where && all[k - 1] == before
      modifies this`all, this`size, what`next, what`prev, where`prev, before`next
      ensures Valid() && all == InsertAt(old(all), k, what)
    {
      AfterInsert(all, free, mark, head, tail, k, what);
      LiveMore(iters, all, InsertAt(all, k, what), head);
      hide Ends;
      hide Separate;
      hide NoDup;
      hide ListFrom;
      hide Marked;
      hide Registered;
      hide Live;
      hide InsertAt;
      hide Chained;
      LinkBefore(what, where, before, all, k);
      all := InsertAt(all, k, what);
      size := size + 1;
    }

    lemma LiveMore(iters: seq<Iterator>, all: seq<Node>, all': seq<Node>, head: Node)
      requires Live(iters, all, head) && forall x <- all :: x in all'
      ensures Live(iters, all', head)
    {
    }

    /** The links next to the two ends. */
    lemma Around()
      requires Valid()
      ensures head.next == all[1] && tail.prev == all[|all| - 2] && head != tail
      ensures forall i :: 0 <= i < |all| ==> (all[i] == head <==> i == 0) && (all[i] == tail <==> i == |all| - 1)
      ensures head in all && tail in all
    {
    }

    method PushBack(ele: Node)
      requires Valid() && Loose(ele)
      modifies this`all, this`size, ele, all
      ensures Valid() && all == InsertAt(old(all), |old(all)| - 1, ele)
    {
      PutBefore(ele, tail, all[|all| - 2], |all| - 1);
    }

    method PushFront(ele: Node)
      requires Valid() && Loose(ele)
      modifies this`all, this`size, ele, all
      ensures Valid() && all == InsertAt(old(all), 1, ele)
    {
      AfterInsert(all, free, mark, head, tail, 1, ele);
      LiveMore(iters, all, InsertAt(all, 1, ele), head);
      ghost var after := all[1];
      hide Ends;
      hide Separate;
      hide NoDup;
      hide ListFrom;
      hide Marked;
      hide Registered;
      hide Live;
      hide InsertAt;
      hide Chained;
      LinkAfter(ele, head, after, all, 1);
      all := InsertAt(all, 1, ele);
      size := size + 1;
    }

    /** Fails quietly when `position` is not on the list or `element` is. */
    method InsertBefore(position: Node, element: Node)
      requires Valid() && (position in all || Loose(position))
      requires (element in all && element != tail) || Loose(element)
      modifies this`all, this`size, element, all
      ensures Valid()
      ensures forall k :: 0 < k < |old(all)| && old(all)[k] == position && old(Loose(element)) ==>
        all == InsertAt(old(all), k, element)
      ensures position !in old(all) || position == head || element in old(all) ==> all == old(all)
    {
      LinksOfLive(position);
      LinksOfLive(element);
      if position.prev == null || element.next != null {
        return;
      }
      ghost var k :| 0 <= k < |all| && all[k] == position;
      PutBefore(element, position, all[k - 1], k);
    }

    /** Iterators on an element about to leave go to the next, but from the last to the first, and to the
      * tail when it is alone. */
    method AdjustIterators(ele: Node)
      requires Valid() && ele != head && ele != tail
      modifies iters`current
      ensures Valid()
      ensures ele !in all ==> forall it <- iters :: it.current == old(it.current)
      ensures ele in all ==>
        var k := IndexOf(ele);
        && 0 < k < |all| - 1
        && forall it <- iters ::
          it.current ==
            if old(it.current) != ele then old(it.current)
            else if k + 1 < |all| - 1 then all[k + 1] else if |all| > 3 then all[1] else tail
      ensures forall it <- iters :: it.current != ele
    {
      var next := ele.next;
      Around();
      if next == tail && size > 1 {
        next := head.next;
      }
      if ele in all {
        ghost var k := IndexOf(ele);
        Follow(k);
      }
      MoveOff(ele, next);
    }

    /** The link from element number `k`. */
    lemma Follow(k: nat)
      requires Valid() && k < |all| - 1
      ensures all[k].next == all[k + 1] && all[k + 1] in all && all[k + 1] != head && all[k + 1] != all[k]
      ensures forall j :: 0 <= j < |all| && all[j] == all[k] ==> j == k
    {
    }

    /** The loop over the iterators. */
    method MoveOff(ele: Node, next: Node?)
      requires Registered(iterators, iters) && Live(iters, all, head) && ele != head
      requires ele in all ==> next != null && next in all && next != head && next != ele
      modifies iters`current
      ensures Live(iters, all, head)
      ensures forall it <- iters :: it.current == if old(it.current) == ele then next else old(it.current)
    {
      var cur := iterators;
      ghost var j := 0;
      while cur != null
        invariant 0 <= j <= |iters| && cur == if j < |iters| then iters[j] else null
        invariant Live(iters, all, head)
        invariant forall i :: 0 <= i < j ==>
          iters[i].current == if old(iters[i].current) == ele then next else old(iters[i].current)
        invariant forall i :: j <= i < |iters| ==> iters[i].current == old(iters[i].current)
        decreases |iters| - j
      {
        assert iters[j] in iters;
        if cur.current == ele {
          cur.current := next;
        }
        cur := cur.next;
        j := j + 1;
      }
      forall it | it in iters
        ensures it.current == if old(it.current) == ele then next else old(it.current)
      {
        var i :| 0 <= i < |iters| && iters[i] == it;
      }
    }

    ghost function IndexOf(n: Node): (k: nat)
      requires n in all
      reads this
      ensures k < |all| && all[k] == n
    {
      var k :| 0 <= k < |all| && all[k] == n;
      k
    }

    /** Takes out element number `k`, which no iterator stands on. */
    method TakeOut(ele: Node, ghost before: Node, ghost after: Node, ghost k: nat)
      requires Valid() && 0 < k < |all| - 1 && all[k] == ele && all[k - 1] == before && all[k + 1] == after
      requires forall it <- iters :: it.current != ele
      modifies this`all, this`size, ele`next, ele`prev, before`next, after`prev
      ensures Valid() && all == RemoveAt(old(all), k) && Loose(ele)
    {
      AfterRemove(all, free, mark, head, tail, k);
      LiveFewer(iters, all, RemoveAt(all, k), head, ele);
      hide Ends;
      hide Separate;
      hide NoDup;
      hide ListFrom;
      hide Marked;
      hide Registered;
      hide Live;
      hide RemoveAt;
      hide Chained;
      Unlink(ele, before, after, all, k);
      size := size - 1;
      all := RemoveAt(all, k);
      ele.next, ele.prev := null, null;
    }

    lemma LiveFewer(iters: seq<Iterator>, all: seq<Node>, all': seq<Node>, head: Node, ele: Node)
      requires Live(iters, all, head) && forall x <- all :: x in all' || x == ele
      requires forall it <- iters :: it.current != ele
      ensures Live(iters, all', head)
    {
    }

    method PopFront() returns (r: Node?)
      requires Valid()
      modifies this`all, this`size, all, iters`current
      ensures Valid()
      ensures |old(all)| == 2 ==> r == null && all == old(all)
      ensures |old(all)| > 2 ==> r == old(all)[1] && Loose(r) && all == RemoveAt(old(all), 1)
      ensures |old(all)| > 2 ==> forall it <- iters ::
        it.current == if old(it.current) == r then all[1] else old(it.current)
    {
      Around();
      if head.next == tail {
        return null;
      }
      r := head.next;
      AdjustIterators(r);
      TakeOut(r, all[0], all[2], 1);
    }

    /** Takes an element off the list; one that is not on it is left alone. */
    method RemoveElement(ele: Node)
      requires Valid() && ele != head && ele != tail && ele != mark && (ele in all || ele in free || Loose(ele))
      modifies this`all, this`size, all, iters`current
      ensures Valid()
      ensures ele !in old(all) ==> all == old(all) && forall it <- iters :: it.current == old(it.current)
      ensures ele in old(all) ==> all == RemoveAt(old(all), old(IndexOf(ele))) && Loose(ele) && |old(all)| > 2
      ensures ele in old(all) ==>
        var n, k := |old(all)|, old(IndexOf(ele));
        && 0 < k < n - 1
        && forall it <- iters ::
          it.current ==
            if old(it.current) != ele then old(it.current)
            else if k + 1 < n - 1 then old(all[k + 1]) else if n > 3 then old(all[1]) else tail
    {
      LinksOfLive(ele);
      Around();
      assert ele in free || Loose(ele) ==> ele !in all;
      hide Chained;
      hide ListFrom;
      hide Marked;
      hide Separate;
      hide Registered;
      hide Live;
      hide RemoveAt;
      AdjustIterators(ele);
      if ele.prev == null || ele.prev == mark {
        return;
      }
      TakeOutElement(ele);
    }

    method TakeOutElement(ele: Node)
      requires Valid() && ele in all && ele != head && ele != tail && forall it <- iters :: it.current != ele
      modifies this`all, this`size, all
      ensures Valid() && all == RemoveAt(old(all), old(IndexOf(ele))) && Loose(ele) && |old(all)| > 2
    {
      Around();
      ghost var k := IndexOf(ele);
      TakeOut(ele, all[k - 1], all[k + 1], k);
    }

    method CreateIterator() returns (it: Iterator)
      requires Valid()
      modifies this`iterators, this`iters
      ensures Valid() && fresh(it) && iters == [it] + old(iters) && it.current == all[1]
    {
      Around();
      assert allocated(iters);
      it := new Iterator(head.next, iterators);
      iterators := it;
      iters := [it] + iters;
    }

    /** The iterator's element; from the tail it goes to the first when there is one. */
    method GetCurrentNode(it: Iterator) returns (r: Node?)
      requires Valid() && it in iters
      modifies it`current
      ensures Valid() && (r == null <==> |all| == 2)
      ensures r != null ==> r == it.current && r != tail
      ensures it.current == if old(it.current) == tail && |all| > 2 then all[1] else old(it.current)
    {
      Around();
      r := null;
      if it.current == head || it.current == tail {
        if size > 0 {
          it.current := head.next;
          r := it.current;
        }
      } else {
        r := it.current;
      }
    }

    /** Returns the current element and moves on; at the tail it stays there and returns null. */
    method IteratorNext(it: Iterator) returns (r: Node?)
      requires Valid() && it in iters
      modifies it`current
      ensures Valid()
      ensures if old(it.current) == tail then r == null && it.current == tail
        else r == old(it.current) && forall k :: 0 < k < |all| - 1 && all[k] == r ==> it.current == all[k + 1]
    {
      Around();
      r := null;
      if it.current != tail {
        Follow(IndexOf(it.current));
        r := GetCurrentNode(it);
        it.current := it.current.next;
      }
    }

    /** Returns the current element and moves on in a circle. `k` is its index among the elements. */
    method IteratorNextCirc(it: Iterator) returns (r: Node, ghost k: nat)
      requires Valid() && it in iters && |all| > 2
      modifies it`current
      ensures Valid() && k < |all| - 2 && r == all[k + 1]
      ensures if old(it.current) == tail then k == 0 else r == old(it.current)
      ensures it.current == all[NextIndex(k, |all| - 2) + 1]
    {
      hide Chained;
      hide ListFrom;
      hide Marked;
      hide Registered;
      hide Separate;
      var cur := GetCurrentNode(it);
      Around();
      r := cur;
      k := IndexOf(it.current) - 1;
      Follow(k + 1);
      if it.current.next == tail {
        it.current := head.next;
      } else {
        it.current := it.current.next;
      }
    }

    /** As many circular calls as there are elements: each is returned once, in cyclic order from the
      * iterator's, or from the first when that is on the tail; the iterator ends on the element that
      * was returned first. */
    method GoRound(it: Iterator) returns (seen: seq<Node>, ghost k: nat)
      requires Valid() && it in iters && |all| > 2
      modifies it`current
      ensures Valid() && k < |all| - 2
      ensures if old(it.current) == tail then k == 0 else all[k + 1] == old(it.current)
      ensures var items := all[1..|all| - 1]; seen == items[k..] + items[..k] && it.current == items[k]
    {
      hide *;
      Counted();
      ghost var items := all[1..|all| - 1];
      k := StartOf(it);
      ghost var at: nat, left: nat := k, |items|;
      ShiftedEnds(k, |items|);
      GoesRoundOnce(items, k);
      seen := [];
      var i := 0;
      while i < size
        invariant 0 <= i <= size == |items| && left == size - i && Valid() && at < |items|
        invariant if it.current == tail then i == 0 && at == 0 else it.current == all[at + 1]
        invariant i == |items| ==> it.current == all[at + 1]
        invariant seen + Seen(items, at, left) == Seen(items, k, |items|) && at == Shifted(k, i, |items|)
      {
        Follow(at + 1);
        var r, j := IteratorNextCirc(it);
        assert j == at && r == items[at];
        ShiftedNext(k, i, |items|);
        NextInside(at, |items|);
        NotTail(NextIndex(at, |items|) + 1);
        SeenStep(items, at, left);
        assert seen + ([r] + Seen(items, NextIndex(at, |items|), left - 1)) ==
          (seen + [r]) + Seen(items, NextIndex(at, |items|), left - 1);
        seen := seen + [r];
        at, left := NextIndex(at, |items|), left - 1;
        i := i + 1;
      }
      SeenNone(items, at);
    }

    lemma NotTail(k: nat)
      requires Valid() && k < |all| - 1
      ensures all[k] != tail
    {
    }

    lemma Counted()
      requires Valid()
      ensures size == |all| - 2
    {
    }

    /** The index of the element that the next circular call returns. */
    ghost method StartOf(it: Iterator) returns (k: nat)
      requires Valid() && it in iters && |all| > 2
      ensures k < |all| - 2 && if it.current == tail then k == 0 else all[k + 1] == it.current
    {
      Around();
      k := if it.current == tail then 0 else IndexOf(it.current) - 1;
    }

    method IteratorInsertBefore(it: Iterator, ele: Node)
      requires Valid() && it in iters && |all| > 2 && Loose(ele)
      modifies this`all, this`size, it`current, ele, all
      ensures Valid()
      ensures it.current == if old(it.current) == tail then old(all[1]) else old(it.current)
      ensures forall k :: 0 < k < |old(all)| - 1 && old(all)[k] == it.current ==> all == InsertAt(old(all), k, ele)
    {
      var cur := GetCurrentNode(it);
      Around();
      ghost var k := IndexOf(cur);
      PutBefore(ele, cur, all[k - 1], k);
    }

    /** Moves an element of the list to the place before the iterator's, if it is not there yet. */
    method IteratorMoveElementBefore(it: Iterator, ele: Node)
      requires Valid() && it in iters && |all| > 2 && ele in all && ele != head && ele != tail
      modifies this`all, this`size, all, iters`current
      ensures Valid() && it.current == if old(it.current) == tail then old(all[1]) else old(it.current)
      ensures ele == it.current ==> all == old(all)
      ensures ele != it.current ==> MovedBefore(old(all), all, ele, it.current)
    {
      var cur := GetCurrentNode(it);
      Around();
      ghost var c := IndexOf(cur);
      assert cur.prev == all[c - 1];
      if ele != cur && ele != cur.prev {
        Transfer(ele, cur);
      } else if ele == cur.prev {
        StaysBefore(all, c);
      }
    }

    /** Takes `ele` out and puts it in again before `cur`. */
    method Transfer(ele: Node, cur: Node)
      requires Valid() && ele in all && ele != head && ele != tail
      requires cur in all && cur != head && cur != tail && cur != ele
      modifies this`all, this`size, all, iters`current
      ensures Valid() && MovedBefore(old(all), all, ele, cur)
      ensures forall it <- iters :: old(it.current) != ele ==> it.current == old(it.current)
    {
      hide Chained;
      hide ListFrom;
      hide Marked;
      hide Registered;
      hide Live;
      hide RemoveAt;
      hide InsertAt;
      ghost var e := IndexOf(ele);
      StillThere(all, e, cur);
      RemoveElement(ele);
      Around();
      ghost var k := IndexOf(cur);
      ghost var before := all[k - 1];
      assert before in all;
      PutBefore(ele, cur, before, k);
    }
  }

  lemma StillThere(s: seq<Node>, e: nat, cur: Node)
    requires e < |s| && cur in s && cur != s[e]
    ensures cur in RemoveAt(s, e) && |RemoveAt(s, e)| == |s| - 1 && forall x <- RemoveAt(s, e) :: x in s
  {
    var k :| 0 <= k < |s| && s[k] == cur;
    assert RemoveAt(s, e)[if k < e then k else k - 1] == cur;
  }

  lemma StaysBefore(s: seq<Node>, c: nat)
    requires 0 < c < |s|
    ensures MovedBefore(s, s, s[c - 1], s[c])
  {
    assert RemoveAt(s, c - 1)[c - 1] == s[c];
    assert s == InsertAt(RemoveAt(s, c - 1), c - 1, s[c - 1]);
  }

  /** `t` is `s` with `ele` taken out and put in again just before `cur`. */
  ghost predicate MovedBefore(s: seq<Node>, t: seq<Node>, ele: Node, cur: Node) {
    exists e: nat, k: nat :: e < |s| && s[e] == ele && k < |s| - 1 && RemoveAt(s, e)[k] == cur &&
      t == InsertAt(RemoveAt(s, e), k, ele)
  }

  // ---------- going round ----------

  function NextIndex(k: nat, n: nat): nat {
    if k + 1 == n then 0 else k + 1
  }

  /** What `m` calls of IteratorNextCirc return on an unchanged list, starting at index `k`. */
  function Seen<T>(items: seq<T>, k: nat, m: nat): seq<T>
    requires k < |items|
    decreases m
  {
    if m == 0 then [] else [items[k]] + Seen(items, NextIndex(k, |items|), m - 1)
  }

  lemma SeenStep<T>(items: seq<T>, k: nat, m: nat)
    requires k < |items| && m > 0
    ensures Seen(items, k, m) == [items[k]] + Seen(items, NextIndex(k, |items|), m - 1)
  {
  }

  lemma SeenNone<T>(items: seq<T>, k: nat)
    requires k < |items|
    ensures Seen(items, k, 0) == []
  {
  }

  /** Index `k` moved on `i` places, at most once round. */
  function Shifted(k: nat, i: nat, n: nat): nat
    requires k < n && i <= n
  {
    if k + i < n then k + i else k + i - n
  }

  lemma ShiftedEnds(k: nat, n: nat)
    requires k < n
    ensures Shifted(k, 0, n) == k == Shifted(k, n, n)
  {
  }

  lemma ShiftedNext(k: nat, i: nat, n: nat)
    requires k < n && i < n
    ensures NextIndex(Shifted(k, i, n), n) == Shifted(k, i + 1, n)
  {
  }

  lemma NextInside(k: nat, n: nat)
    requires k < n
    ensures NextIndex(k, n) < n
  {
  }

  lemma {:induction false} SeenFrom<T>(items: seq<T>, k: nat, m: nat)
    requires k < |items| && m <= |items| - k
    ensures Seen(items, k, m) == items[k..k + m]
    decreases m
  {
    if m > 0 {
      if m > 1 {
        SeenFrom(items, k + 1, m - 1);
      }
      assert items[k..k + m] == [items[k]] + items[k + 1..k + m];
    }
  }

  lemma {:induction false} SeenRound<T>(items: seq<T>, k: nat, m: nat)
    requires k < |items| && |items| - k <= m <= |items|
    ensures Seen(items, k, m) == items[k..] + items[..m - (|items| - k)]
    decreases |items| - k
  {
    if k + 1 == |items| {
      if m > 1 {
        SeenFrom(items, 0, m - 1);
      }
      assert items[k..] == [items[k]];
    } else {
      SeenRound(items, k + 1, m - 1);
      assert items[k..] == [items[k]] + items[k + 1..];
    }
  }

  /** As many calls as there are elements return each element once, in circular order. */
  lemma {:induction false} GoesRoundOnce<T>(items: seq<T>, k: nat)
    requires k < |items|
    ensures Seen(items, k, |items|) == items[k..] + items[..k]
  {
    SeenRound(items, k, |items|);
  }
}
