/** Doubly linked nodes that spell a sequence: what linking and unlinking one node does to it. */
module Chain {

  class Node {
    var data: int
    var next: Node?
    var prev: Node?

    constructor ()
      ensures next == null && prev == null
    {
      data, next, prev := 0, null, null;
    }
  }

  ghost predicate NoDup(s: seq<Node>) {
    forall i, j :: 0 <= i < |s| && 0 <= j < |s| && i != j ==> s[i] != s[j]
  }

  ghost predicate Apart(s: seq<Node>, t: seq<Node>) {
    forall i, j :: 0 <= i < |s| && 0 <= j < |t| ==> s[i] != t[j]
  }

  /** Neighbours point at each other. */
  ghost predicate Chained(s: seq<Node>)
    reads s
  {
    && (forall i :: 0 <= i < |s| - 1 ==> s[i].next == s[i + 1])
    && (forall i :: 0 < i < |s| ==> s[i].prev == s[i - 1])
  }

  ghost function InsertAt<T>(s: seq<T>, k: nat, x: T): (t: seq<T>)
    requires k <= |s|
    ensures |t| == |s| + 1
    ensures forall i :: 0 <= i < |t| ==> t[i] == if i < k then s[i] else if i == k then x else s[i - 1]
  {
    s[..k] + [x] + s[k..]
  }

  ghost function RemoveAt<T>(s: seq<T>, k: nat): (t: seq<T>)
    requires k < |s|
    ensures |t| == |s| - 1
    ensures forall i :: 0 <= i < |t| ==> t[i] == if i < k then s[i] else s[i + 1]
  {
    s[..k] + s[k + 1..]
  }

  lemma InsertKeeps(s: seq<Node>, k: nat, x: Node)
    requires NoDup(s) && k <= |s| && x !in s
    ensures NoDup(InsertAt(s, k, x))
    ensures forall y :: y in InsertAt(s, k, x) <==> y in s || y == x
  {
    assert s == s[..k] + s[k..];
  }

  lemma RemoveKeeps(s: seq<Node>, k: nat)
    requires NoDup(s) && k < |s|
    ensures NoDup(RemoveAt(s, k))
    ensures forall y :: y in RemoveAt(s, k) <==> y in s && y != s[k]
  {
    var t := RemoveAt(s, k);
    assert forall i :: 0 <= i < |s| && i != k ==> s[i] == t[if i < k then i else i - 1];
  }

  ghost predicate Ends(all: seq<Node>, head: Node, tail: Node) {
    |all| >= 2 && all[0] == head && all[|all| - 1] == tail
  }

  /** The linked nodes, the free ones, and one node `other` are apart. */
  ghost predicate Separate(all: seq<Node>, free: seq<Node>, other: Node) {
    NoDup(all) && NoDup(free) && Apart(all, free) && other !in all && other !in free
  }

  lemma AfterInsert(all: seq<Node>, free: seq<Node>, other: Node, head: Node, tail: Node, k: nat, what: Node)
    requires Separate(all, free, other) && Ends(all, head, tail) && 0 < k < |all|
    requires what !in all && what !in free && what != other
    ensures var s := InsertAt(all, k, what);
      && |s| == |all| + 1 && Separate(s, free, other) && Ends(s, head, tail)
      && forall x :: x in s <==> x in all || x == what
    ensures NoDup(all) && all[k] !in free && all[k - 1] !in free && all[k] != head && all[k - 1] != tail
    ensures what != head && what != tail && other != all[k] && other != all[k - 1]
  {
    InsertKeeps(all, k, what);
  }

  lemma AfterRemove(all: seq<Node>, free: seq<Node>, other: Node, head: Node, tail: Node, k: nat)
    requires Separate(all, free, other) && Ends(all, head, tail) && 0 < k < |all| - 1
    ensures var s := RemoveAt(all, k);
      && |s| == |all| - 1 && Separate(s, free, other) && Ends(s, head, tail)
      && forall x :: x in s <==> x in all && x != all[k]
    ensures NoDup(all) && all[k + 1] !in free && all[k - 1] !in free && all[k] !in free
    ensures all[k + 1] != head && all[k - 1] != tail && all[k] != head && all[k] != tail && all[k] != other
    ensures all[k] !in RemoveAt(all, k)
  {
    RemoveKeeps(all, k);
  }

  /** Puts `what` before `where`, element number `k`. */
  method LinkBefore(what: Node, where: Node, ghost before: Node, ghost s: seq<Node>, ghost k: nat)
    requires Chained(s) && NoDup(s) && 0 < k < |s| && s[k] == where && s[k - 1] == before && what !in s
    modifies what`next, what`prev, where`prev, before`next
    ensures Chained(InsertAt(s, k, what))
  {
    assert where.prev == before;
    what.next := where;
    what.prev := where.prev;
    where.prev.next := what;
    where.prev := what;
    ghost var t := InsertAt(s, k, what);
    forall i | 0 <= i < |t| - 1 ensures t[i].next == t[i + 1] && t[i + 1].prev == t[i] {
      assert i + 1 < k || i >= k + 1 || t[i] == before || t[i] == what;
    }
    assert forall i :: 0 < i < |t| ==> t[i].prev == t[i - 1] by {
      forall i | 0 < i < |t| ensures t[i].prev == t[i - 1] {
        assert t[i - 1].next == t[i - 1 + 1];
      }
    }
  }

  /** Puts `what` after `where`, before element number `k`. */
  method LinkAfter(what: Node, where: Node, ghost after: Node, ghost s: seq<Node>, ghost k: nat)
    requires Chained(s) && NoDup(s) && 0 < k < |s| && s[k - 1] == where && s[k] == after && what !in s
    modifies what`next, what`prev, where`next, after`prev
    ensures Chained(InsertAt(s, k, what))
  {
    assert where.next == after;
    what.next := where.next;
    what.prev := where;
    where.next.prev := what;
    where.next := what;
    ghost var t := InsertAt(s, k, what);
    forall i | 0 <= i < |t| - 1 ensures t[i].next == t[i + 1] && t[i + 1].prev == t[i] {
      assert i + 1 < k || i >= k + 1 || t[i] == where || t[i] == what;
    }
    assert forall i :: 0 < i < |t| ==> t[i].prev == t[i - 1] by {
      forall i | 0 < i < |t| ensures t[i].prev == t[i - 1] {
        assert t[i - 1].next == t[i - 1 + 1];
      }
    }
  }

  /** Takes out `ele`, element number `k`; its own links stay as they were. */
  method Unlink(ele: Node, ghost before: Node, ghost after: Node, ghost s: seq<Node>, ghost k: nat)
    requires Chained(s) && NoDup(s) && 0 < k < |s| - 1 && s[k] == ele && s[k - 1] == before && s[k + 1] == after
    modifies before`next, after`prev
    ensures Chained(RemoveAt(s, k))
  {
    assert ele.prev == before && ele.next == after;
    ele.prev.next := ele.next;
    ele.next.prev := ele.prev;
    ghost var t := RemoveAt(s, k);
    forall i | 0 <= i < |t| - 1 ensures t[i].next == t[i + 1] && t[i + 1].prev == t[i] {
      assert i + 1 < k || i >= k || t[i] == before;
    }
    assert forall i :: 0 < i < |t| ==> t[i].prev == t[i - 1] by {
      forall i | 0 < i < |t| ensures t[i].prev == t[i - 1] {
        assert t[i - 1].next == t[i - 1 + 1];
      }
    }
  }

  /** The nodes between the two ends hold `data`. */
  ghost predicate Holds(s: seq<Node>, data: seq<int>)
    reads s`data
  {
    |s| == |data| + 2 && forall i :: 0 <= i < |data| ==> s[i + 1].data == data[i]
  }

  /** A list that ends with null, `first` being the pointer to its first node. */
  ghost predicate ListFrom(first: Node?, s: seq<Node>)
    reads s`next
  {
    && first == (if s == [] then null else s[0])
    && (forall i :: 0 <= i < |s| - 1 ==> s[i].next == s[i + 1])
    && (s != [] ==> s[|s| - 1].next == null)
  }

  lemma ListTail(first: Node?, s: seq<Node>)
    requires ListFrom(first, s)
    ensures first == null <==> s == []
    ensures s != [] ==> first == s[0] && ListFrom(s[0].next, s[1..])
  {
  }

  lemma HoldsInserted(s: seq<Node>, data: seq<int>, k: nat, x: Node)
    requires Holds(s, data) && 0 < k < |s|
    ensures Holds(InsertAt(s, k, x), InsertAt(data, k - 1, x.data)) && |InsertAt(data, k - 1, x.data)| == |data| + 1
  {
  }

  lemma HoldsRemoved(s: seq<Node>, data: seq<int>, k: nat)
    requires Holds(s, data) && 0 < k < |s| - 1
    ensures Holds(RemoveAt(s, k), RemoveAt(data, k - 1))
  {
  }

  /** Puts `item` at the front of the list that hangs on `dummy`. */
  method PushFront(dummy: Node, item: Node, ghost s: seq<Node>)
    requires ListFrom(dummy.next, s) && item !in s && dummy !in s && item != dummy
    modifies dummy`next, item`next
    ensures ListFrom(dummy.next, [item] + s)
  {
    item.next := dummy.next;
    dummy.next := item;
  }
}
