/** The chained hash table: an array of bucket lists that refines a finite map, for any hash. */
module HashTable {
  import opened Common

  type Key = string

  class Bucket {
    const key: Key
    var data: int
    var next: Bucket?

    constructor (key: Key, data: int, next: Bucket?)
      ensures this.key == key && this.data == data && this.next == next
    {
      this.key, this.data, this.next := key, data, next;
    }
  }

  /** `first` leads through the buckets of `s` to null. */
  ghost predicate Spells(first: Bucket?, s: seq<Bucket>)
    reads s`next
  {
    && first == (if s == [] then null else s[0])
    && (forall j :: 0 <= j < |s| - 1 ==> s[j].next == s[j + 1])
    && (s != [] ==> s[|s| - 1].next == null)
  }

  ghost predicate DistinctKeys(s: seq<Bucket>) {
    forall i, j :: 0 <= i < |s| && 0 <= j < |s| && i != j ==> s[i].key != s[j].key
  }

  /** The buckets of `s` hold what `m` binds their keys to. */
  ghost predicate Agrees(s: seq<Bucket>, m: map<Key, int>)
    reads s`data
  {
    forall b <- s :: b.key in m && m[b.key] == b.data
  }

  ghost predicate HasKey(s: seq<Bucket>, key: Key) {
    exists j :: 0 <= j < |s| && s[j].key == key
  }

  /** Every key of `m` has a bucket in the chain of its index. */
  ghost predicate Covers(chains: seq<seq<Bucket>>, m: map<Key, int>, hash: Key -> nat, n: nat) {
    |chains| == n > 0 && forall k <- m :: HasKey(chains[IndexIn(hash, n, k)], k)
  }

  lemma CoversUpdated(chains: seq<seq<Bucket>>, m: map<Key, int>, hash: Key -> nat, n: nat, t: seq<Bucket>, key: Key,
                      data: int)
    requires n > 0 && Covers(chains, m, hash, n)
    requires forall k :: k != key && HasKey(chains[IndexIn(hash, n, key)], k) ==> HasKey(t, k)
    ensures Covers(chains[IndexIn(hash, n, key) := t], m - {key}, hash, n)
    ensures HasKey(t, key) ==> Covers(chains[IndexIn(hash, n, key) := t], m[key := data], hash, n)
  {
  }

  lemma HasIt(s: seq<Bucket>, j: nat)
    requires j < |s|
    ensures HasKey(s, s[j].key) && s[j] in s && s[j] in Among(s)
  {
  }

  lemma FrontHas(b: Bucket, s: seq<Bucket>)
    ensures HasKey([b] + s, b.key) && forall k :: HasKey(s, k) ==> HasKey([b] + s, k)
  {
    assert ([b] + s)[0].key == b.key;
    forall k | HasKey(s, k) ensures HasKey([b] + s, k) {
      var j :| 0 <= j < |s| && s[j].key == k;
      assert ([b] + s)[j + 1].key == k;
    }
  }

  /** The least power of two from 2 on that is no less than `least`, with its exponent. */
  ghost predicate IsSize(n: nat, length: nat, least: nat) {
    n >= 1 && length == Pow2(n) && least <= length && (n > 1 ==> Pow2(n - 1) < least)
  }

  function IndexIn(hash: Key -> nat, n: nat, key: Key): (i: nat)
    requires n > 0
    ensures i < n
  {
    hash(key) % n
  }

  /** The list at index `i`: its links, distinct keys that belong there, and their data. */
  ghost predicate ChainOk(first: Bucket?, s: seq<Bucket>, m: map<Key, int>, hash: Key -> nat, n: nat, i: nat)
    requires n > 0
    reads s`next, s`data
  {
    Spells(first, s) && DistinctKeys(s) && Agrees(s, m) && forall b <- s :: IndexIn(hash, n, b.key) == i
  }

  /** Other lists do not have a bucket of index `i`, and a binding of that index is nothing to them. */
  lemma Elsewhere(first: Bucket?, s: seq<Bucket>, m: map<Key, int>, hash: Key -> nat, n: nat, j: nat, key: Key,
                  data: int)
    requires n > 0 && ChainOk(first, s, m, hash, n, j) && j != IndexIn(hash, n, key)
    ensures ChainOk(first, s, m[key := data], hash, n, j) && ChainOk(first, s, m - {key}, hash, n, j)
    ensures forall b :: b in s ==> IndexIn(hash, n, b.key) != IndexIn(hash, n, key)
  {
    AgreesElsewhere(s, m, key, data);
  }

  /** What a walk along a list finds. */
  lemma Along(first: Bucket?, s: seq<Bucket>, m: map<Key, int>, hash: Key -> nat, n: nat, i: nat)
    requires n > 0 && ChainOk(first, s, m, hash, n, i)
    ensures first == if s == [] then null else s[0]
    ensures forall j :: 0 <= j < |s| ==> s[j].next == if j + 1 < |s| then s[j + 1] else null
    ensures forall j :: 0 <= j < |s| ==> s[j].key in m && m[s[j].key] == s[j].data && s[j] in s
  {
  }

  /** A key that no bucket of its list has is not bound. */
  lemma NotBound(chains: seq<seq<Bucket>>, m: map<Key, int>, hash: Key -> nat, n: nat, key: Key)
    requires n > 0 && Covers(chains, m, hash, n)
    requires forall j :: 0 <= j < |chains[IndexIn(hash, n, key)]| ==> chains[IndexIn(hash, n, key)][j].key != key
    ensures key !in m
  {
  }

  /** A chain that does not have `key` is not touched by a new binding of it, or by its end. */
  lemma AgreesElsewhere(s: seq<Bucket>, m: map<Key, int>, key: Key, data: int)
    requires Agrees(s, m) && forall b <- s :: b.key != key
    ensures Agrees(s, m[key := data]) && Agrees(s, m - {key})
  {
  }

  /** The chain with a new bucket in front. */
  lemma Fronted(b: Bucket, s: seq<Bucket>, m: map<Key, int>, hash: Key -> nat, n: nat, i: nat)
    requires n > 0 && ChainOk(b.next, s, m, hash, n, i) && IndexIn(hash, n, b.key) == i && b.key !in m
    ensures ChainOk(b, [b] + s, m[b.key := b.data], hash, n, i)
  {
    assert forall c <- s :: c.key in m;
    AgreesElsewhere(s, m, b.key, b.data);
  }

  ghost function Dropped(s: seq<Bucket>, j: nat): (t: seq<Bucket>)
    requires j < |s|
    ensures |t| == |s| - 1 && forall i :: 0 <= i < |t| ==> t[i] == if i < j then s[i] else s[i + 1]
  {
    s[..j] + s[j + 1..]
  }

  /** The chain without bucket number `j`. */
  lemma DroppedKeeps(s: seq<Bucket>, j: nat, m: map<Key, int>)
    requires j < |s| && DistinctKeys(s) && Agrees(s, m)
    ensures DistinctKeys(Dropped(s, j)) && Agrees(Dropped(s, j), m - {s[j].key})
    ensures forall c <- Dropped(s, j) :: c in s && c.key != s[j].key
    ensures forall k :: k != s[j].key && HasKey(s, k) ==> HasKey(Dropped(s, j), k)
  {
    var t := Dropped(s, j);
    forall c | c in t ensures c in s && c.key != s[j].key {
      var i :| 0 <= i < |t| && t[i] == c;
      assert c == s[if i < j then i else i + 1];
    }
    forall k | k != s[j].key && HasKey(s, k) ensures HasKey(t, k) {
      var i :| 0 <= i < |s| && s[i].key == k;
      assert t[if i < j then i else i - 1].key == k;
    }
  }

  lemma DroppedChain(first: Bucket?, s: seq<Bucket>, j: nat, m: map<Key, int>, hash: Key -> nat, n: nat, i: nat,
                     all: set<Bucket>)
    requires n > 0 && ChainOk(first, s, m, hash, n, i) && j < |s| && forall c <- s :: c in all
    ensures forall c <- Dropped(s, j) :: c in all
    ensures forall k :: k != s[j].key && HasKey(s, k) ==> HasKey(Dropped(s, j), k)
    ensures j > 0 ==> s[j - 1] in Among(s)
  {
    DroppedKeeps(s, j, m);
  }

  ghost function Among(s: seq<Bucket>): set<Bucket> {
    set b | b in s
  }

  class Table {
    const hash: Key -> nat
    const buckets: array<Bucket?>
    ghost var chains: seq<seq<Bucket>>
    ghost var contents: map<Key, int>
    ghost var repr: set<Bucket>

    /** h & hashmask(size) */
    function Index(key: Key): (i: nat)
      requires buckets.Length > 0
      reads this
      ensures i < buckets.Length
    {
      IndexIn(hash, buckets.Length, key)
    }

    /** All lists but number `h`, for the bindings `m`. */
    ghost predicate AllBut(h: int, cs: seq<seq<Bucket>>, m: map<Key, int>, all: set<Bucket>)
      reads buckets, all
    {
      && |cs| == buckets.Length > 0
      && forall i: nat :: i < |cs| && i != h ==>
        && (forall b <- cs[i] :: b in all)
        && ChainOk(buckets[i], cs[i], m, hash, buckets.Length, i)
    }

    ghost predicate Valid()
      reads this, buckets, repr
    {
      AllBut(-1, chains, contents, repr) && Covers(chains, contents, hash, buckets.Length)
    }

    lemma Parts()
      requires Valid()
      ensures AllBut(-1, chains, contents, repr) && Covers(chains, contents, hash, buckets.Length)
      ensures |chains| == buckets.Length > 0
    {
    }

    lemma Whole()
      requires AllBut(-1, chains, contents, repr) && Covers(chains, contents, hash, buckets.Length)
      ensures Valid()
    {
    }

    /** List number `h` completes the others. */
    lemma Complete(h: nat, cs: seq<seq<Bucket>>, t: seq<Bucket>, m: map<Key, int>, all: set<Bucket>)
      requires AllBut(h, cs, m, all) && h < |cs| == buckets.Length
      requires ChainOk(buckets[h], t, m, hash, buckets.Length, h) && forall b <- t :: b in all
      ensures AllBut(-1, cs[h := t], m, all)
    {
    }

    lemma AllButMore(h: int, cs: seq<seq<Bucket>>, m: map<Key, int>, all: set<Bucket>, more: set<Bucket>)
      requires AllBut(h, cs, m, all) && all <= more
      ensures AllBut(h, cs, m, more)
    {
      hide ChainOk;
    }

    /** Nothing in the other lists depends on the buckets of list `h` or on a key of its index. */
    lemma Others(h: nat, cs: seq<seq<Bucket>>, m: map<Key, int>, all: set<Bucket>, key: Key, data: int)
      requires AllBut(-1, cs, m, all) && buckets.Length > 0 && h == IndexIn(hash, buckets.Length, key)
      ensures AllBut(h, cs, m[key := data], all - Among(cs[h])) && AllBut(h, cs, m - {key}, all - Among(cs[h]))
      ensures ChainOk(buckets[h], cs[h], m, hash, buckets.Length, h) && forall b <- cs[h] :: b in all
    {
      forall i: nat | i < |cs| && i != h
        ensures ChainOk(buckets[i], cs[i], m[key := data], hash, buckets.Length, i)
        ensures ChainOk(buckets[i], cs[i], m - {key}, hash, buckets.Length, i)
        ensures forall b <- cs[i] :: b in all - Among(cs[h])
      {
        Elsewhere(buckets[i], cs[i], m, hash, buckets.Length, i, key, data);
      }
    }

    /** A table for about `size` keys: the least power of two that is no less than ten times that. */
    constructor (hash: Key -> nat, size: nat)
      ensures Valid() && this.hash == hash && contents == map[] && fresh(buckets)
      ensures exists n: nat :: IsSize(n, buckets.Length, 10 * size)
    {
      var bits, tsize := 1, 2;
      assert Pow2(1) == 2 * Pow2(0);
      while tsize < 10 * size
        invariant bits >= 1 && tsize == Pow2(bits)
        invariant bits > 1 ==> Pow2(bits - 1) < 10 * size
        decreases 10 * size - tsize
      {
        bits := bits + 1;
        tsize := 2 * tsize;
      }
      this.hash := hash;
      buckets := new Bucket?[tsize](_ => null);
      chains := seq(tsize, _ => []);
      contents := map[];
      repr := {};
      assert IsSize(bits, tsize, 10 * size);
    }

    /** The bucket with a key, and its place in its chain. */
    method Find(key: Key) returns (b: Bucket?, ghost j: nat)
      requires Valid()
      ensures Valid()
      ensures if key in contents
        then
          && b != null && j < |chains[IndexIn(hash, buckets.Length, key)]|
          && b == chains[IndexIn(hash, buckets.Length, key)][j]
          && b.key == key && b in repr && contents[key] == b.data
        else b == null
    {
      hide *;
      Parts();
      var h := IndexIn(hash, buckets.Length, key);
      ghost var s := chains[h];
      Others(h, chains, contents, repr, key, 0);
      Along(buckets[h], s, contents, hash, buckets.Length, h);
      b := buckets[h];
      j := 0;
      while b != null
        invariant j <= |s| && b == if j < |s| then s[j] else null
        invariant forall i :: 0 <= i < j ==> s[i].key != key
        decreases |s| - j
      {
        if b.key == key {
          assert b in s;
          return;
        }
        b := b.next;
        j := j + 1;
      }
      NotBound(chains, contents, hash, buckets.Length, key);
    }

    /** The bound data, or 0 (the null pointer) for a key that has none. */
    method Lookup(key: Key) returns (data: int)
      requires Valid()
      ensures Valid() && data == if key in contents then contents[key] else 0
    {
      var b, j := Find(key);
      if b != null {
        return b.data;
      }
      return 0;
    }

    /** 1 for a new key, 0 for one whose data was replaced. */
    method Insert(key: Key, data: int) returns (r: int)
      requires Valid()
      modifies this, buckets, repr
      ensures Valid() && contents == old(contents)[key := data]
      ensures r == if key in old(contents) then 0 else 1
    {
      var b, j := Find(key);
      if b != null {
        SetData(b, j, data);
        return 0;
      }
      AddFront(key, data);
      return 1;
    }

    /** Replaces the data of a bucket. */
    method SetData(b: Bucket, ghost j: nat, data: int)
      requires Valid() && b.key in contents
      requires j < |chains[IndexIn(hash, buckets.Length, b.key)]|
      requires b == chains[IndexIn(hash, buckets.Length, b.key)][j]
      modifies this`contents, b`data
      ensures Valid() && contents == old(contents)[b.key := data]
    {
      hide *;
      Parts();
      ghost var h := IndexIn(hash, buckets.Length, b.key);
      ghost var s, m := chains[h], contents[b.key := data];
      Others(h, chains, contents, repr, b.key, data);
      HasIt(s, j);
      CoversUpdated(chains, contents, hash, buckets.Length, s, b.key, data);
      assert chains[h := s] == chains;
      Overwrite(h, b, s, data, chains, contents, m, repr - Among(s));
      AllButMore(h, chains, m, repr - Among(s), repr);
      Complete(h, chains, s, m, repr);
      contents := m;
      Whole();
    }

    method Overwrite(ghost h: nat, b: Bucket, ghost s: seq<Bucket>, data: int, ghost cs: seq<seq<Bucket>>,
                     ghost m: map<Key, int>, ghost m': map<Key, int>, ghost all: set<Bucket>)
      requires h < buckets.Length && ChainOk(buckets[h], s, m, hash, buckets.Length, h)
      requires m' == m[b.key := data] && b in s && b !in all && AllBut(h, cs, m', all)
      modifies b`data
      ensures ChainOk(buckets[h], s, m', hash, buckets.Length, h) && AllBut(h, cs, m', all)
    {
      b.data := data;
      assert ChainOk(buckets[h], s, m', hash, buckets.Length, h);
      hide ChainOk;
    }

    /** Puts a new bucket at the front of its chain. */
    method AddFront(key: Key, data: int)
      requires Valid() && key !in contents
      modifies this`contents, this`chains, this`repr, buckets
      ensures Valid() && contents == old(contents)[key := data] && fresh(repr - old(repr))
    {
      hide *;
      Parts();
      var h := IndexIn(hash, buckets.Length, key);
      ghost var s, m := chains[h], contents[key := data];
      Others(h, chains, contents, repr, key, data);
      var b := new Bucket(key, data, buckets[h]);
      Fronted(b, s, contents, hash, buckets.Length, h);
      FrontHas(b, s);
      CoversUpdated(chains, contents, hash, buckets.Length, [b] + s, key, data);
      SetFirst(h, b, chains, m, repr - Among(s), repr + {b});
      Complete(h, chains, [b] + s, m, repr + {b});
      chains := chains[h := [b] + s];
      contents := m;
      repr := repr + {b};
      Whole();
    }

    method SetFirst(h: nat, b: Bucket?, ghost cs: seq<seq<Bucket>>, ghost m: map<Key, int>,
                    ghost all: set<Bucket>, ghost more: set<Bucket>)
      requires h < buckets.Length && AllBut(h, cs, m, all) && all <= more
      modifies buckets
      ensures buckets[h] == b && AllBut(h, cs, m, more)
    {
      hide ChainOk;
      buckets[h] := b;
    }

    /** Returns the data that was bound, or 0 (the null pointer). */
    method Remove(key: Key) returns (data: int)
      requires Valid()
      modifies this, buckets, repr
      ensures Valid() && contents == old(contents) - {key}
      ensures data == if key in old(contents) then old(contents)[key] else 0
    {
      hide *;
      Parts();
      var h := IndexIn(hash, buckets.Length, key);
      ghost var s := chains[h];
      Others(h, chains, contents, repr, key, 0);
      Along(buckets[h], s, contents, hash, buckets.Length, h);
      var b0: Bucket?, b := null, buckets[h];
      ghost var j := 0;
      while b != null
        invariant 0 <= j <= |s| && b == (if j < |s| then s[j] else null)
        invariant b0 == if j == 0 then null else s[j - 1]
        invariant forall i :: 0 <= i < j ==> s[i].key != key
        decreases |s| - j
      {
        if b.key == key {
          data := b.data;
          Drop(key, b0, b, j);
          return;
        }
        b0 := b;
        b := b.next;
        j := j + 1;
      }
      NotBound(chains, contents, hash, buckets.Length, key);
      assert contents - {key} == contents;
      data := 0;
    }

    /** Unlinks bucket `b`, number `j` of its chain. */
    method Drop(key: Key, b0: Bucket?, b: Bucket, ghost j: nat)
      requires Valid() && b.key == key
      requires j < |chains[IndexIn(hash, buckets.Length, key)]| && b == chains[IndexIn(hash, buckets.Length, key)][j]
      requires b0 == if j == 0 then null else chains[IndexIn(hash, buckets.Length, key)][j - 1]
      modifies this`contents, this`chains, buckets, repr`next
      ensures Valid() && contents == old(contents) - {key}
    {
      hide *;
      Parts();
      var h := IndexIn(hash, buckets.Length, key);
      ghost var s, m, t := chains[h], contents - {key}, Dropped(chains[h], j);
      Others(h, chains, contents, repr, key, 0);
      DroppedChain(buckets[h], s, j, contents, hash, buckets.Length, h, repr);
      CoversUpdated(chains, contents, hash, buckets.Length, t, key, 0);
      Skip(h, b0, b, s, j, chains, contents, m, repr - Among(s));
      AllButMore(h, chains, m, repr - Among(s), repr);
      Complete(h, chains, t, m, repr);
      chains := chains[h := t];
      contents := m;
      Whole();
    }

    /** Leads the link to `b` past it. */
    method Skip(h: nat, b0: Bucket?, b: Bucket, ghost s: seq<Bucket>, ghost j: nat, ghost cs: seq<seq<Bucket>>,
                ghost m: map<Key, int>, ghost less: map<Key, int>, ghost all: set<Bucket>)
      requires h < buckets.Length && j < |s| && b == s[j] && b0 == (if j == 0 then null else s[j - 1])
      requires ChainOk(buckets[h], s, m, hash, buckets.Length, h) && less == m - {b.key}
      requires AllBut(h, cs, less, all) && (b0 != null ==> b0 !in all)
      modifies buckets, (if b0 == null then {} else {b0})`next
      ensures ChainOk(buckets[h], Dropped(s, j), less, hash, buckets.Length, h) && AllBut(h, cs, less, all)
    {
      DroppedKeeps(s, j, m);
      assert forall c <- Dropped(s, j) :: IndexIn(hash, buckets.Length, c.key) == h;
      hide DistinctKeys;
      hide Agrees;
      SkipLink(h, b0, b, s, j);
      hide Spells;
      assert ChainOk(buckets[h], Dropped(s, j), less, hash, buckets.Length, h);
      hide ChainOk;
    }

    method SkipLink(h: nat, b0: Bucket?, b: Bucket, ghost s: seq<Bucket>, ghost j: nat)
      requires h < buckets.Length && j < |s| && b == s[j] && b0 == (if j == 0 then null else s[j - 1])
      requires Spells(buckets[h], s) && DistinctKeys(s)
      modifies buckets, (if b0 == null then {} else {b0})`next
      ensures Spells(buckets[h], Dropped(s, j))
      ensures forall i :: 0 <= i < buckets.Length && i != h ==> buckets[i] == old(buckets[i])
    {
      assert b.next == if j + 1 < |s| then s[j + 1] else null;
      if b0 != null {
        b0.next := b.next;
      } else {
        buckets[h] := b.next;
      }
    }

    /** wtable_for_each: the callback is given each binding. */
    method ForEach() returns (visited: seq<(Key, int)>)
      requires Valid()
      ensures Valid()
      ensures forall v <- visited :: v.0 in contents && contents[v.0] == v.1
      ensures forall k <- contents :: (k, contents[k]) in visited
      ensures forall i, j :: 0 <= i < j < |visited| ==> visited[i].0 != visited[j].0
    {
      Parts();
      visited := [];
      var i := 0;
      while i < buckets.Length
        invariant 0 <= i <= buckets.Length && Valid()
        invariant Visited(visited, i)
      {
        visited := VisitList(i, visited);
        i := i + 1;
      }
      AllVisited(visited);
    }

    /** The bindings of the lists before number `h`, each once. */
    ghost predicate Visited(visited: seq<(Key, int)>, h: nat)
      requires buckets.Length > 0
      reads this
    {
      && (forall v <- visited :: v.0 in contents && contents[v.0] == v.1 && Index(v.0) < h)
      && (forall k <- contents :: Index(k) < h ==> (k, contents[k]) in visited)
      && (forall i, j :: 0 <= i < j < |visited| ==> visited[i].0 != visited[j].0)
    }

    lemma AllVisited(visited: seq<(Key, int)>)
      requires buckets.Length > 0 && Visited(visited, buckets.Length)
      ensures forall v <- visited :: v.0 in contents && contents[v.0] == v.1
      ensures forall k <- contents :: (k, contents[k]) in visited
      ensures forall i, j :: 0 <= i < j < |visited| ==> visited[i].0 != visited[j].0
    {
    }

    ghost function Bindings(s: seq<Bucket>): (r: seq<(Key, int)>)
      reads s`data
      ensures |r| == |s| && forall j :: 0 <= j < |s| ==> r[j] == (s[j].key, s[j].data)
    {
      if s == [] then [] else Bindings(s[..|s| - 1]) + [(s[|s| - 1].key, s[|s| - 1].data)]
    }

    lemma VisitedMore(visited: seq<(Key, int)>, h: nat, s: seq<Bucket>)
      requires Valid() && h < buckets.Length && s == chains[h] && Visited(visited, h)
      ensures Visited(visited + Bindings(s), h + 1)
    {
      assert ChainOk(buckets[h], s, contents, hash, buckets.Length, h);
      var all := visited + Bindings(s);
      forall k | k in contents && Index(k) < h + 1 ensures (k, contents[k]) in all {
        if Index(k) == h {
          var j :| 0 <= j < |s| && s[j].key == k;
          assert s[j] in s && all[|visited| + j] == (k, contents[k]);
        }
      }
      forall i, j | 0 <= i < j < |all| ensures all[i].0 != all[j].0 {
        if j >= |visited| {
          assert s[j - |visited|] in s;
        }
      }
    }

    lemma VisitFacts(before: seq<(Key, int)>, h: nat) returns (bs: seq<(Key, int)>)
      requires Valid() && h < buckets.Length && Visited(before, h)
      ensures var s := chains[h];
        && |bs| == |s| && Visited(before + bs, h + 1)
        && buckets[h] == (if s == [] then null else s[0])
        && forall j :: 0 <= j < |s| ==>
          bs[j] == (s[j].key, s[j].data) && s[j].next == if j + 1 < |s| then s[j + 1] else null
    {
      var s := chains[h];
      assert ChainOk(buckets[h], s, contents, hash, buckets.Length, h);
      Along(buckets[h], s, contents, hash, buckets.Length, h);
      VisitedMore(before, h, s);
      bs := Bindings(s);
    }

    method VisitList(h: nat, before: seq<(Key, int)>) returns (visited: seq<(Key, int)>)
      requires Valid() && h < buckets.Length && Visited(before, h)
      ensures Valid() && Visited(visited, h + 1)
    {
      hide *;
      Parts();
      ghost var s := chains[h];
      ghost var bs := VisitFacts(before, h);
      visited := before;
      var b := buckets[h];
      ghost var j := 0;
      while b != null
        invariant 0 <= j <= |s| && b == (if j < |s| then s[j] else null)
        invariant visited == before + bs[..j]
        decreases |s| - j
      {
        var next := b.next;
        visited := visited + [(b.key, b.data)];
        b := next;
        j := j + 1;
      }
      assert bs[..j] == bs;
    }
  }
}
