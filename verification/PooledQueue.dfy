/** The pooled queue: a doubly linked list between dummy head and tail items, a free list threaded
  * through the same items, and a cursor. Calls are taken one at a time. */
module PooledQueue {
  import opened Chain

  datatype Status = Ok | Full | NoMem | InvalidArg | WouldBlock | End | Timeout

  /** The cursor is element number `at`, or, -1, it stands on an item that has left the queue. */
  ghost predicate IsAt(all: seq<Node>, at: int, cursor: Node) {
    if at == -1 then cursor !in all else 0 <= at < |all| && cursor == all[at]
  }

  /** The items between the ends. */
  ghost function Between(all: seq<Node>, head: Node, tail: Node): set<Node> {
    set n | n in all && n != head && n != tail
  }

  ghost function Among(s: seq<Node>): set<Node> {
    set n | n in s
  }

  /** Where the cursor is after an item was put before `k`; it may stand on the item itself. */
  ghost function AfterPut(at: int, k: nat, item: Node, cursor: Node): int {
    if item == cursor then k else if at < k then at else at + 1
  }

  /** Where it is after the first item was taken. */
  ghost function AfterTake(at: int): int {
    if at == 1 then -1 else if at < 1 then at else at - 1
  }

  lemma PutKeepsPlace(all: seq<Node>, free: seq<Node>, firstFree: Node, head: Node, tail: Node, at: int, cursor: Node,
                    k: nat, item: Node)
    requires Separate(all, free, firstFree) && Ends(all, head, tail) && IsAt(all, at, cursor) && 0 < k < |all|
    requires item !in all && item !in free && item != firstFree
    ensures var s := InsertAt(all, k, item);
      && |s| == |all| + 1 && Separate(s, free, firstFree) && Ends(s, head, tail)
      && IsAt(s, AfterPut(at, k, item, cursor), cursor)
    ensures NoDup(all) && all[k] !in free && all[k - 1] !in free && firstFree != all[k] && firstFree != all[k - 1]
    ensures all[k] != head && all[k - 1] != tail && item != head && item != tail
  {
    AfterInsert(all, free, firstFree, head, tail, k, item);
  }

  lemma TakeKeepsPlace(all: seq<Node>, free: seq<Node>, firstFree: Node, head: Node, tail: Node, at: int, cursor: Node)
    requires Separate(all, free, firstFree) && Ends(all, head, tail) && IsAt(all, at, cursor) && |all| > 2
    ensures var s := RemoveAt(all, 1);
      && |s| == |all| - 1 && Separate(s, [all[1]] + free, firstFree) && Ends(s, head, tail)
      && IsAt(s, AfterTake(at), cursor) && all[1] !in s
    ensures NoDup(all) && all[1] !in free && all[2] !in free && head !in free && firstFree !in free
    ensures firstFree != all[1] && firstFree != all[2] && firstFree != head && all[2] != head && head != tail
  {
    AfterRemove(all, free, firstFree, head, tail, 1);
    assert all[1] in all;
  }

  lemma BetweenInserted(all: seq<Node>, head: Node, tail: Node, k: nat, item: Node)
    requires NoDup(all) && Ends(all, head, tail) && 0 < k < |all| && item !in all
    ensures Between(InsertAt(all, k, item), head, tail) == Between(all, head, tail) + {item}
  {
    InsertKeeps(all, k, item);
  }

  lemma BetweenRemoved(all: seq<Node>, head: Node, tail: Node)
    requires NoDup(all) && Ends(all, head, tail) && |all| > 2
    ensures Between(all, head, tail) == Between(RemoveAt(all, 1), head, tail) + {all[1]}
  {
    RemoveKeeps(all, 1);
  }

  lemma FirstData(all: seq<Node>, contents: seq<int>)
    requires Holds(all, contents) && |all| > 2
    ensures all[1].data == contents[0] && RemoveAt(contents, 0) == contents[1..]
  {
  }

  lemma {:induction false} AmongSize(s: seq<Node>)
    requires NoDup(s)
    ensures |Among(s)| == |s|
  {
    if s != [] {
      AmongSize(s[1..]);
      assert s == [s[0]] + s[1..];
      assert Among(s) == Among(s[1..]) + {s[0]};
    }
  }

  /** Without repetition and overlap the items can be counted. */
  lemma ItemsCounted(all: seq<Node>, free: seq<Node>, firstFree: Node, head: Node, tail: Node)
    requires Separate(all, free, firstFree) && Ends(all, head, tail)
    ensures |Between(all, head, tail) + Among(free)| == |all| - 2 + |free|
  {
    AmongSize(all);
    AmongSize(free);
    assert Among(all) == Between(all, head, tail) + {head} + {tail};
    assert head !in Between(all, head, tail) && tail !in Between(all, head, tail) + {head};
    forall n | n in Between(all, head, tail) ensures n !in Among(free) {
    }
    assert Between(all, head, tail) !! Among(free);
  }

  /** A queue without items. */
  lemma EmptyLists(head: Node, tail: Node, firstFree: Node)
    requires head != tail && head != firstFree && tail != firstFree
    ensures Separate([head, tail], [], firstFree) && Ends([head, tail], head, tail) && IsAt([head, tail], 0, head)
    ensures Between([head, tail], head, tail) == {} && Among([]) == {}
  {
  }

  lemma SeparateFacts(all: seq<Node>, free: seq<Node>, firstFree: Node)
    requires Separate(all, free, firstFree)
    ensures NoDup(all) && firstFree !in all && firstFree !in free
    ensures free != [] ==> free[0] !in all && free[0] !in free[1..]
    ensures free != [] ==> Separate(all, free[1..], firstFree) && Among(free) == Among(free[1..]) + {free[0]}
    ensures forall n <- free :: n !in all
  {
    assert free != [] ==> free == [free[0]] + free[1..];
  }

  /** New items are on no list. */
  lemma SeparateNew(all: seq<Node>, free: seq<Node>, firstFree: Node, items: seq<Node>)
    requires Separate(all, free, firstFree) && NoDup(items) && forall n <- items :: n !in all && n != firstFree
    ensures Separate(all, items, firstFree)
  {
    forall i, j | 0 <= i < |all| && 0 <= j < |items| ensures all[i] != items[j] {
      assert items[j] in items;
    }
  }

  lemma SeparateFewer(all: seq<Node>, free: seq<Node>, firstFree: Node, item: Node)
    requires Separate(all, [item] + free, firstFree)
    ensures Separate(all, free, firstFree) && item !in free
  {
    var s := [item] + free;
    assert forall i :: 0 <= i < |free| ==> free[i] == s[i + 1];
    assert s[0] == item;
  }

  lemma SeparateMore(all: seq<Node>, free: seq<Node>, firstFree: Node, item: Node)
    requires Separate(all, free, firstFree) && item !in all && item !in free && item != firstFree
    ensures Separate(all, [item] + free, firstFree)
  {
  }

  /** WOMBAT_QUEUE_MAX_SIZE and WOMBAT_QUEUE_CHUNK_SIZE */
  const DEFAULT_MAX_SIZE := 2147483647
  const DEFAULT_CHUNK_SIZE := 64

  class Queue {
    const head: Node
    const tail: Node
    const firstFree: Node
    var sem: nat
    var maxSize: nat
    var chunkSize: nat
    var cursor: Node
    /** The list from head to tail, the place of the cursor in it, and the free list. */
    ghost var all: seq<Node>
    ghost var at: int
    ghost var free: seq<Node>
    /** Every item that was ever allocated. */
    ghost var owned: set<Node>
    /** The data of the items between head and tail. */
    ghost var contents: seq<int>

    /** All but the count of the items. */
    ghost predicate Shaped()
      reads this, all, free, firstFree
    {
      && Chained(all) && Ends(all, head, tail) && head.prev == head && tail.next == tail
      && ListFrom(firstFree.next, free)
      && Separate(all, free, firstFree)
      && IsAt(all, at, cursor)
      && Holds(all, contents) && sem == |contents| && chunkSize > 0
    }

    /** The items that can be found: queued or free. */
    ghost function Found(): set<Node>
      reads this
    {
      Between(all, head, tail) + Among(free)
    }

    /** The lists are in order and no allocated item is lost. */
    ghost predicate Valid()
      reads this, all, free, firstFree
    {
      Shaped() && owned == Found() && |owned| == |contents| + |free|
    }

    /** wombatQueue_allocate */
    constructor ()
      ensures Valid() && fresh(all) && fresh(firstFree) && contents == [] && owned == {} && at == 0
      ensures maxSize == 2147483647 && chunkSize == 64
    {
      hide Separate;
      hide Ends;
      hide IsAt;
      hide Between;
      hide Among;
      hide NoDup;
      hide Apart;
      var h := new Node();
      var t := new Node();
      var f := new Node();
      EmptyLists(h, t, f);
      head, tail, firstFree, cursor := h, t, f, h;
      sem := 0;
      maxSize, chunkSize := DEFAULT_MAX_SIZE, DEFAULT_CHUNK_SIZE;
      all, at, free, contents, owned := [h, t], 0, [], [], {};
      new;
      h.next, h.prev, t.prev, t.next := t, h, h, t;
    }

    /** wombatQueue_create: 0 stands for the default, and the first chunk is allocated at once. */
    method Create(maxSize: nat, initialSize: nat, growBySize: nat) returns (status: Status)
      requires Valid() && owned == {}
      modifies this, firstFree
      ensures Valid() && fresh(owned) && contents == [] && cursor == old(cursor)
      ensures this.maxSize == if maxSize != 0 then maxSize else old(this.maxSize)
      ensures chunkSize == if growBySize != 0 then growBySize else old(chunkSize)
      ensures var initial := if initialSize == 0 then 64 else initialSize;
        if initial <= this.maxSize then status == Ok && |owned| == initial else status == NoMem && owned == {}
    {
      hide Chained;
      hide Ends;
      hide IsAt;
      hide Holds;
      hide Between;
      hide Among;
      hide Separate;
      hide ListFrom;
      hide NoDup;
      hide Apart;
      if maxSize != 0 {
        this.maxSize := maxSize;
      }
      if growBySize != 0 {
        chunkSize := growBySize;
      }
      sem := 0;
      var initial := if initialSize == 0 then DEFAULT_CHUNK_SIZE else initialSize;
      AllocChunk(initial);
      ListTail(firstFree.next, free);
      if firstFree.next == null {
        return NoMem;
      }
      status := Ok;
    }

    method SetMaxSize(value: nat) returns (status: Status)
      requires Valid()
      modifies this`maxSize
      ensures Valid() && if value > 2147483647 then status == InvalidArg && maxSize == old(maxSize)
        else status == Ok && maxSize == value
    {
      if value > DEFAULT_MAX_SIZE {
        return InvalidArg;
      }
      maxSize := value;
      status := Ok;
    }

    /** Items for the free list, unless the queue would become too big. Only here are items
      * allocated. */
    method AllocChunk(items: nat)
      requires Valid() && free == [] && items > 0
      modifies this`free, this`owned, firstFree
      ensures Valid() && owned == old(owned) + Among(free) && fresh(free)
      ensures |free| == if sem + items > maxSize then 0 else items
      ensures |owned| == |old(owned)| + |free| && fresh(owned - old(owned))
      ensures free == [] ==> owned == old(owned)
    {
      hide Chained;
      hide Ends;
      hide IsAt;
      hide Holds;
      hide Between;
      hide Separate;
      hide ListFrom;
      Sizes();
      SeparateFacts(all, free, firstFree);
      if sem + items > maxSize {
        return;
      }
      assert allocated(all) && allocated({firstFree});
      assert tail != firstFree && head != firstFree;
      var result := NewChunk(items);
      firstFree.next := result[0];
      SeparateNew(all, free, firstFree, result);
      free := result;
      owned := owned + Among(result);
      ItemsCounted(all, free, firstFree, head, tail);
    }

    /** calloc, and the links from each item to the next */
    method NewChunk(items: nat) returns (result: seq<Node>)
      requires items > 0
      ensures |result| == items && fresh(result) && NoDup(result) && ListFrom(result[0], result)
    {
      result := NewItems(items);
      var i := 0;
      while i < |result| - 1
        invariant 0 <= i <= |result| - 1
        invariant forall k :: 0 <= k < i ==> result[k].next == result[k + 1]
        invariant forall k :: i <= k < |result| ==> result[k].next == null
      {
        result[i].next := result[i + 1];
        result[i + 1].prev := result[i];
        i := i + 1;
      }
    }

    method NewItems(items: nat) returns (result: seq<Node>)
      ensures |result| == items && fresh(result) && NoDup(result)
      ensures forall k :: 0 <= k < items ==> result[k].next == null
    {
      result := [];
      while |result| < items
        invariant |result| <= items && fresh(result) && NoDup(result)
        invariant forall k :: 0 <= k < |result| ==> result[k].next == null
      {
        var r := new Node();
        result := result + [r];
      }
    }

    /** An item from the free list, which is filled again when it is empty. */
    method TakeFree(data: int) returns (item: Node?)
      requires Valid()
      modifies this`free, this`owned, firstFree, free
      ensures Shaped() && old(owned) <= owned && fresh(owned - old(owned))
      ensures item == null <==> old(free == [] && sem + chunkSize > maxSize)
      ensures item == null ==> Valid() && owned == old(owned)
      ensures owned == old(owned) || |owned| <= maxSize
      ensures item != null ==>
        && Loose(item) && item.data == data && owned == Found() + {item}
        && (item in old(free) || fresh(item)) && (forall x <- free :: x in old(free) || fresh(x))
        && |owned| == |contents| + |free| + 1 == |old(owned)| + if old(free) == [] then chunkSize else 0
    {
      hide Shaped;
      hide Found;
      hide Between;
      hide Among;
      hide Loose;
      hide IsAt;
      FreeLinks();
      if firstFree.next == null {
        AllocChunk(chunkSize);
        FreeLinks();
      }
      if firstFree.next == null {
        return null;
      }
      item := PopFree(data);
    }

    /** The dummy of the free list points at its first item. */
    lemma FreeLinks()
      requires Shaped()
      ensures (firstFree.next == null <==> free == []) && (free != [] ==> firstFree.next == free[0])
      ensures sem == |contents| && chunkSize > 0
    {
    }

    method PopFree(data: int) returns (item: Node)
      requires Shaped() && free != []
      modifies this`free, firstFree`next, free`data
      ensures Shaped() && Loose(item) && item == old(free[0]) && item.data == data
      ensures free == old(free)[1..] && old(Found()) == Found() + {item}
    {
      hide Chained;
      hide Ends;
      hide IsAt;
      hide Holds;
      hide Between;
      hide Among;
      hide Separate;
      hide ListFrom;
      hide NoDup;
      hide Apart;
      FreeLinks();
      ListTail(firstFree.next, free);
      SeparateFacts(all, free, firstFree);
      Sizes();
      item := firstFree.next;
      assert item != firstFree && forall n <- free :: n !in all;
      firstFree.next := item.next;
      item.data := data;
      free := free[1..];
    }

    /** Which data is where. */
    lemma ItemData()
      requires Shaped()
      ensures forall i :: 0 < i < |all| - 1 ==> all[i].data == contents[i - 1]
    {
    }

    /** A queue with items does not look empty. */
    lemma Ahead()
      requires Shaped() && contents != []
      ensures head.next != tail
    {
      assert head.next == all[1] && all[1] != all[|all| - 1];
    }

    /** What the fields say about the lists. */
    lemma Sizes()
      requires Shaped()
      ensures |all| == |contents| + 2 && sem == |contents| && chunkSize > 0
      ensures all[0] == head && all[|all| - 1] == tail
    {
    }

    /** What the links of the cursor and the two ends are. */
    lemma Around()
      requires Shaped()
      ensures head.next == all[1] && tail.prev == all[|all| - 2] && (at >= 0 ==> cursor in all && at < |all|)
      ensures at >= 0 ==> cursor.next == all[if at == |all| - 1 then at else at + 1]
      ensures at >= 0 ==> cursor.prev == all[if at == 0 then 0 else at - 1]
      ensures forall i :: 0 <= i < |all| ==> (all[i] == head <==> i == 0) && (all[i] == tail <==> i == |all| - 1)
    {
    }

    /** An item that belongs to no list yet. */
    ghost predicate Loose(item: Node)
      reads this
    {
      item !in all && item !in free && item != firstFree
    }

    /** Links `item` before `where`, element number `k`, and posts. */
    method PutBefore(item: Node, where: Node, ghost before: Node, ghost k: nat)
      requires Shaped() && Loose(item) && 0 < k < |all| && all[k] == where && all[k - 1] == before
      modifies this`all, this`at, this`sem, this`contents, item`next, item`prev, where`prev, before`next
      ensures Shaped() && Found() == old(Found()) + {item} && all == InsertAt(old(all), k, item)
      ensures cursor == old(cursor)
      ensures contents == InsertAt(old(contents), k - 1, item.data)
      ensures |contents| == |old(contents)| + 1 && at == AfterPut(old(at), k, item, cursor)
    {
      hide Ends;
      hide Separate;
      hide IsAt;
      hide NoDup;
      hide ListFrom;
      hide Holds;
      hide InsertAt;
      hide Chained;
      hide Between;
      hide Among;
      hide AfterPut;
      Sizes();
      PutKeepsPlace(all, free, firstFree, head, tail, at, cursor, k, item);
      HoldsInserted(all, contents, k, item);
      assert Holds(InsertAt(all, k, item), InsertAt(contents, k - 1, item.data));
      BetweenInserted(all, head, tail, k, item);
      LinkBefore(item, where, before, all, k);
      all := InsertAt(all, k, item);
      at := AfterPut(at, k, item, cursor);
      contents := InsertAt(contents, k - 1, item.data);
      sem := sem + 1;
    }

    /** Links `item` after `where`, before element number `k`, and posts. */
    method PutAfter(item: Node, where: Node, ghost after: Node, ghost k: nat)
      requires Shaped() && Loose(item) && 0 < k < |all| && all[k - 1] == where && all[k] == after
      modifies this`all, this`at, this`sem, this`contents, item`next, item`prev, where`next, after`prev
      ensures Shaped() && Found() == old(Found()) + {item} && all == InsertAt(old(all), k, item)
      ensures cursor == old(cursor)
      ensures contents == InsertAt(old(contents), k - 1, item.data)
      ensures |contents| == |old(contents)| + 1 && at == AfterPut(old(at), k, item, cursor)
    {
      hide Ends;
      hide Separate;
      hide IsAt;
      hide NoDup;
      hide ListFrom;
      hide Holds;
      hide InsertAt;
      hide Chained;
      hide Between;
      hide Among;
      hide AfterPut;
      Sizes();
      PutKeepsPlace(all, free, firstFree, head, tail, at, cursor, k, item);
      HoldsInserted(all, contents, k, item);
      assert Holds(InsertAt(all, k, item), InsertAt(contents, k - 1, item.data));
      BetweenInserted(all, head, tail, k, item);
      LinkAfter(item, where, after, all, k);
      all := InsertAt(all, k, item);
      at := AfterPut(at, k, item, cursor);
      contents := InsertAt(contents, k - 1, item.data);
      sem := sem + 1;
    }

    /** Fails when no item can be had: the free list is empty and a chunk more would be too much. */
    method Enqueue(data: int) returns (status: Status)
      requires Valid()
      modifies this, firstFree, all, free
      ensures Valid() && status == if old(free == [] && sem + chunkSize > maxSize) then Full else Ok
      ensures contents == old(contents) + (if status == Ok then [data] else [])
      ensures cursor == old(cursor)
      ensures old(owned) <= owned && fresh(owned - old(owned)) && maxSize == old(maxSize) && chunkSize == old(chunkSize)
      ensures |owned| == |old(owned)| + if status == Ok && old(free) == [] then chunkSize else 0
      ensures owned == old(owned) || |owned| <= maxSize
    {
      hide Shaped;
      hide Found;
      hide Between;
      hide Among;
      hide Loose;
      hide AfterPut;
      hide IsAt;
      var item := TakeFree(data);
      if item == null {
        return Full;
      }
      Sizes();
      PutBefore(item, tail, all[|all| - 2], |all| - 1);
      assert contents == old(contents) + [data];
      status := Ok;
    }

    method CursorOffTail()
      requires Valid() && at >= 0
      modifies this`cursor, this`at
      ensures Valid() && at == (if old(cursor) == tail then 0 else old(at)) && at < |all| - 1
      ensures cursor == (if old(cursor) == tail then head else old(cursor)) && cursor == all[at]
    {
      Around();
      if cursor == tail {
        cursor := head;
        at := 0;
      }
    }

    method CursorOffHead()
      requires Valid() && at >= 0
      modifies this`cursor, this`at
      ensures Valid() && at == (if old(cursor) == head then |all| - 1 else old(at)) && 0 < at < |all| == |contents| + 2
      ensures cursor == (if old(cursor) == head then tail else old(cursor)) && cursor == all[at]
    {
      Around();
      if cursor == head {
        cursor := tail;
        at := |all| - 1;
      }
    }

    /** Inserts behind the cursor, or at the front when the cursor is past the end. */
    method InsertAfter(data: int) returns (status: Status)
      requires Valid() && at >= 0
      modifies this, firstFree, all, free
      ensures Valid() && status == if old(free == [] && sem + chunkSize > maxSize) then Full else Ok
      ensures var k := if old(cursor) == tail then 0 else old(at);
        contents == if status == Ok then InsertAt(old(contents), k, data) else old(contents)
      ensures cursor == (if old(cursor) == tail then head else old(cursor))
      ensures old(owned) <= owned && fresh(owned - old(owned)) && maxSize == old(maxSize) && chunkSize == old(chunkSize)
      ensures |owned| == |old(owned)| + if status == Ok && old(free) == [] then chunkSize else 0
      ensures owned == old(owned) || |owned| <= maxSize
    {
      hide Shaped;
      hide Found;
      hide Between;
      hide Among;
      hide Loose;
      hide InsertAt;
      hide AfterPut;
      hide IsAt;
      CursorOffTail();
      var item := TakeFree(data);
      if item == null {
        return Full;
      }
      PutAfter(item, cursor, all[at + 1], at + 1);
      status := Ok;
    }

    /** Inserts in front of the cursor, or at the back when the cursor is before the first. */
    method InsertBefore(data: int) returns (status: Status)
      requires Valid() && at >= 0
      modifies this, firstFree, all, free
      ensures Valid() && status == if old(free == [] && sem + chunkSize > maxSize) then Full else Ok
      ensures var k := if old(cursor) == head then |old(contents)| else old(at) - 1;
        contents == if status == Ok then InsertAt(old(contents), k, data) else old(contents)
      ensures cursor == (if old(cursor) == head then tail else old(cursor))
      ensures old(owned) <= owned && fresh(owned - old(owned)) && maxSize == old(maxSize) && chunkSize == old(chunkSize)
      ensures |owned| == |old(owned)| + if status == Ok && old(free) == [] then chunkSize else 0
      ensures owned == old(owned) || |owned| <= maxSize
    {
      hide Shaped;
      hide Found;
      hide Between;
      hide Among;
      hide Loose;
      hide InsertAt;
      hide AfterPut;
      hide IsAt;
      CursorOffHead();
      var item := TakeFree(data);
      if item == null {
        return Full;
      }
      PutBefore(item, cursor, all[at - 1], at);
      status := Ok;
    }

    /** WQ_REMOVE of the first item, which goes to the front of the free list; the cursor stays on it. */
    method TakeFirst() returns (item: Node)
      requires Valid() && contents != []
      modifies this`all, this`at, this`sem, this`contents, this`free, all, firstFree
      ensures Valid() && item.data == old(contents)[0] && contents == old(contents)[1..]
      ensures free == [item] + old(free) && at == AfterTake(old(at))
    {
      hide Shaped;
      hide Found;
      hide Between;
      hide Among;
      hide Loose;
      hide AfterTake;
      hide IsAt;
      Sizes();
      item := UnlinkFirst(all[2]);
      PutFree(item);
    }

    method UnlinkFirst(ghost second: Node) returns (item: Node)
      requires Shaped() && |all| > 2 && second == all[2]
      modifies this`all, this`at, this`sem, this`contents, head`next, second`prev
      ensures Shaped() && Loose(item) && item in old(all)
      ensures old(Found()) == Found() + {item} && at == AfterTake(old(at))
      ensures item.data == old(contents)[0] && contents == old(contents)[1..]
    {
      hide Ends;
      hide Separate;
      hide IsAt;
      hide NoDup;
      hide ListFrom;
      hide Holds;
      hide Between;
      hide Among;
      hide Chained;
      hide RemoveAt;
      hide AfterTake;
      Around();
      Sizes();
      item := head.next;
      TakeKeepsPlace(all, free, firstFree, head, tail, at, cursor);
      HoldsRemoved(all, contents, 1);
      BetweenRemoved(all, head, tail);
      FirstData(all, contents);
      assert Holds(RemoveAt(all, 1), contents[1..]);
      SeparateFewer(RemoveAt(all, 1), free, firstFree, all[1]);
      Unlink(item, head, second, all, 1);
      all := RemoveAt(all, 1);
      at := AfterTake(at);
      contents := contents[1..];
      sem := sem - 1;
    }

    method PutFree(item: Node)
      requires Shaped() && Loose(item)
      modifies this`free, firstFree`next, item`next
      ensures Shaped() && free == [item] + old(free) && Found() == old(Found()) + {item}
    {
      SeparateMore(all, free, firstFree, item);
      assert item !in free && firstFree !in free && firstFree !in all && item !in all && item != firstFree;
      assert head in all && tail in all;
      assert Among([item] + free) == Among(free) + {item};
      hide Separate;
      hide Holds;
      hide Between;
      hide Among;
      PushFront(firstFree, item, free);
      hide ListFrom;
      free := [item] + free;
    }

    /** wombatQueue_timedDispatch: gives up when nothing comes, which alone it does not. */
    method TimedDispatch() returns (status: Status, data: int)
      requires Valid()
      modifies this, all, firstFree
      ensures Valid() && cursor == old(cursor)
      ensures status == if old(contents) == [] then Timeout else Ok
      ensures status == Ok ==> data == old(contents)[0] && contents == old(contents)[1..]
      ensures status == Timeout ==> contents == [] && at == old(at)
      ensures status == Ok ==> at == AfterTake(old(at))
      ensures owned == old(owned) && maxSize == old(maxSize) && chunkSize == old(chunkSize)
    {
      hide Shaped;
      hide Found;
      hide Between;
      hide Among;
      hide AfterTake;
      hide IsAt;
      Sizes();
      data := 0;
      if sem == 0 {
        return Timeout, data;
      }
      Ahead();
      if head.next == tail {
        assert false;
      }
      var item := TakeFirst();
      status, data := Ok, item.data;
    }

    method Poll() returns (status: Status, data: int)
      requires Valid()
      modifies this, all, firstFree
      ensures Valid() && cursor == old(cursor)
      ensures status == if old(contents) == [] then WouldBlock else Ok
      ensures status == Ok ==> data == old(contents)[0] && contents == old(contents)[1..]
      ensures status == WouldBlock ==> contents == [] && at == old(at)
      ensures status == Ok ==> at == AfterTake(old(at))
      ensures owned == old(owned) && maxSize == old(maxSize) && chunkSize == old(chunkSize)
    {
      hide Shaped;
      hide Found;
      hide Between;
      hide Among;
      hide AfterTake;
      hide IsAt;
      Sizes();
      data := 0;
      if sem == 0 {
        return WouldBlock, data;
      }
      var item := TakeFirst();
      status, data := Ok, item.data;
    }

    method Begin()
      requires Valid()
      modifies this`cursor, this`at
      ensures Valid() && at == 0
    {
      cursor := head;
      at := 0;
    }

    method ToEnd()
      requires Valid()
      modifies this`cursor, this`at
      ensures Valid() && at == |all| - 1
    {
      cursor := tail;
      at := |all| - 1;
    }

    /** Moves on to the next item; at the end it stays on the last. */
    method Next() returns (status: Status, data: int)
      requires Valid() && at >= 0
      modifies this`cursor, this`at
      ensures Valid()
      ensures if old(at) < |contents|
        then status == Ok && at == old(at) + 1 && data == contents[old(at)]
        else status == End && at == |contents|
    {
      hide Ends;
      hide Separate;
      hide NoDup;
      hide ListFrom;
      hide Holds;
      hide Between;
      hide Among;
      hide Chained;
      Sizes();
      ItemData();
      data := 0;
      Around();
      cursor := cursor.next;
      at := if at == |all| - 1 then at else at + 1;
      if cursor == tail {
        cursor := cursor.prev;
        at := |all| - 2;
        return End, data;
      }
      status, data := Ok, cursor.data;
    }

    /** Moves back to the previous item; at the beginning it stays on the first. */
    method Prev() returns (status: Status, data: int)
      requires Valid() && at >= 0
      modifies this`cursor, this`at
      ensures Valid()
      ensures if old(at) > 1
        then status == Ok && at == old(at) - 1 && data == contents[old(at) - 2]
        else status == End && at == 1
    {
      hide Ends;
      hide Separate;
      hide NoDup;
      hide ListFrom;
      hide Holds;
      hide Between;
      hide Among;
      hide Chained;
      Sizes();
      ItemData();
      data := 0;
      Around();
      cursor := cursor.prev;
      at := if at == 0 then 0 else at - 1;
      if cursor == head {
        cursor := cursor.next;
        at := 1;
        return End, data;
      }
      status, data := Ok, cursor.data;
    }

    method Replace(data: int) returns (status: Status)
      requires Valid() && at >= 0
      modifies this`contents, cursor`data
      ensures Valid()
      ensures if 0 < at <= |old(contents)|
        then status == Ok && contents == old(contents)[at - 1 := data]
        else status == End && contents == old(contents)
    {
      if cursor == head || cursor == tail {
        return End;
      }
      cursor.data := data;
      contents := contents[at - 1 := data];
      status := Ok;
    }
  }

  // ---------- runs of calls, one at a time ----------

  /** wombatQueue_enqueue, wombatQueue_poll and wombatQueue_timedDispatch */
  datatype Call = Put(data: int) | TakeNow | TakeTimed

  /** The queue as a list of data and a number of free items; what was taken from it and what it
    * accepted so far. */
  datatype Pool = Pool(contents: seq<int>, free: nat, taken: seq<int>, accepted: seq<int>)

  function Called(p: Pool, c: Call, maxSize: nat, chunkSize: nat): Pool {
    match c
    case Put(x) =>
      var free := if p.free == 0 && |p.contents| + chunkSize <= maxSize then chunkSize else p.free;
      if free == 0 then p else p.(contents := p.contents + [x], free := free - 1, accepted := p.accepted + [x])
    case TakeNow | TakeTimed =>
      if p.contents == [] then p
      else p.(contents := p.contents[1..], free := p.free + 1, taken := p.taken + [p.contents[0]])
  }

  function After(p: Pool, calls: seq<Call>, maxSize: nat, chunkSize: nat): Pool {
    if calls == [] then p
    else Called(After(p, calls[..|calls| - 1], maxSize, chunkSize), calls[|calls| - 1], maxSize, chunkSize)
  }

  /** In every run the data comes out in the order in which it was accepted, and the items, once
    * within the maximum, stay within it. */
  lemma {:induction false} InOrderAndBounded(contents: seq<int>, free: nat, calls: seq<Call>, maxSize: nat,
                                             chunkSize: nat)
    ensures var p := After(Pool(contents, free, [], []), calls, maxSize, chunkSize);
      && p.taken + p.contents == contents + p.accepted
      && |contents| + free <= |p.contents| + p.free
      && (|contents| + free <= maxSize ==> |p.contents| + p.free <= maxSize)
  {
    if calls != [] {
      InOrderAndBounded(contents, free, calls[..|calls| - 1], maxSize, chunkSize);
      var p := After(Pool(contents, free, [], []), calls[..|calls| - 1], maxSize, chunkSize);
      var c := calls[|calls| - 1];
      if c.Put? {
        assert p.taken + (p.contents + [c.data]) == (p.taken + p.contents) + [c.data];
        assert contents + (p.accepted + [c.data]) == (contents + p.accepted) + [c.data];
      } else if p.contents != [] {
        assert (p.taken + [p.contents[0]]) + p.contents[1..] == p.taken + p.contents;
      }
    }
  }

  lemma AllAreOwned(q: Queue)
    requires q.Valid()
    ensures forall n <- q.all :: n == q.head || n == q.tail || n in q.owned
    ensures forall n <- q.free :: n in q.owned
  {
  }

  /** A call of the queue. */
  method Perform(q: Queue, c: Call, ghost p: Pool) returns (taken: seq<int>, accepted: seq<int>)
    requires q.Valid() && p.contents == q.contents && p.free == |q.free|
    modifies q, q.firstFree, q.all, q.free
    ensures q.Valid() && q.maxSize == old(q.maxSize) && q.chunkSize == old(q.chunkSize)
    ensures old(q.owned) <= q.owned && fresh(q.owned - old(q.owned))
    ensures Called(p, c, q.maxSize, q.chunkSize) ==
      Pool(q.contents, |q.free|, p.taken + taken, p.accepted + accepted)
  {
    hide q.Shaped;
    hide q.Found;
    taken, accepted := [], [];
    if c.Put? {
      q.Sizes();
      var status := q.Enqueue(c.data);
      if status == Ok {
        accepted := [c.data];
      }
    } else if c.TakeNow? {
      var status, data := q.Poll();
      if status == Ok {
        taken := [data];
      }
    } else {
      var status, data := q.TimedDispatch();
      if status == Ok {
        taken := [data];
      }
    }
    assert p.taken + [] == p.taken && p.accepted + [] == p.accepted;
  }

  /** Any run of calls ends in the state, and has given out the data, of the reckoning above. */
  method Serve(q: Queue, calls: seq<Call>) returns (taken: seq<int>, accepted: seq<int>)
    requires q.Valid()
    modifies q, q.firstFree, q.head, q.tail, q.owned
    ensures q.Valid() && q.maxSize == old(q.maxSize) && q.chunkSize == old(q.chunkSize)
    ensures After(Pool(old(q.contents), |old(q.free)|, [], []), calls, q.maxSize, q.chunkSize) ==
      Pool(q.contents, |q.free|, taken, accepted)
    ensures old(|q.owned|) <= q.maxSize ==> |q.owned| <= q.maxSize
  {
    hide q.Shaped;
    hide q.Found;
    hide Called;
    taken, accepted := [], [];
    ghost var start := Pool(q.contents, |q.free|, [], []);
    var i := 0;
    while i < |calls|
      invariant 0 <= i <= |calls| && q.Valid()
      invariant q.maxSize == old(q.maxSize) && q.chunkSize == old(q.chunkSize)
      invariant old(q.owned) <= q.owned && fresh(q.owned - old(q.owned))
      invariant After(start, calls[..i], q.maxSize, q.chunkSize) == Pool(q.contents, |q.free|, taken, accepted)
    {
      AllAreOwned(q);
      assert calls[..i + 1][..i] == calls[..i];
      var t, a := Perform(q, calls[i], Pool(q.contents, |q.free|, taken, accepted));
      taken, accepted := taken + t, accepted + a;
      i := i + 1;
    }
    assert calls[..i] == calls;
    InOrderAndBounded(old(q.contents), |old(q.free)|, calls, q.maxSize, q.chunkSize);
  }
}
