/** The context of one subscription as the code keeps it: fields changed in place and a cache whose
  * slots are written round and round. Every method is proved against a function of DataQuality. */
module DataQualityContext {
  import opened DataQuality

  datatype Slot = Empty | Full(msg: Msg)

  predicate AllFull(s: seq<Slot>) {
    forall k :: 0 <= k < |s| ==> s[k].Full?
  }

  function Values(s: seq<Slot>): (r: seq<Msg>)
    requires AllFull(s)
    ensures |r| == |s| && forall k :: 0 <= k < |s| ==> r[k] == s[k].msg
  {
    seq(|s|, k requires 0 <= k < |s| => s[k].msg)
  }

  /** Filled from the front up to `cur`, or filled throughout with the oldest message at `cur`. */
  predicate RingShaped(s: seq<Slot>, cur: nat) {
    && cur < |s|
    && AllFull(s[..cur])
    && (AllFull(s[cur..]) || forall k :: cur <= k < |s| ==> s[k].Empty?)
  }

  /** The cached messages in order of arrival. */
  function RingOf(s: seq<Slot>, cur: nat): seq<Msg>
    requires RingShaped(s, cur)
  {
    if s[cur].Empty? then Values(s[..cur]) else Values(s[cur..]) + Values(s[..cur])
  }

  lemma RingPush(s: seq<Slot>, cur: nat, m: Msg)
    requires RingShaped(s, cur)
    ensures var s', cur' := s[cur := Full(m)], if cur + 1 == |s| then 0 else cur + 1;
      RingShaped(s', cur') && RingOf(s', cur') == Pushed(RingOf(s, cur), m, |s|)
  {
    var s', cur' := s[cur := Full(m)], if cur + 1 == |s| then 0 else cur + 1;
    assert forall k :: 0 <= k < cur ==> s[..cur][k] == s[k];
    if s[cur].Empty? {
      if cur + 1 == |s| {
        assert RingOf(s', cur') == Values(s[..cur]) + [m];
      } else {
        assert s'[cur'].Empty?;
        assert RingOf(s', cur') == Values(s[..cur]) + [m];
      }
    } else {
      assert AllFull(s[cur..]);
      assert forall k :: cur <= k < |s| ==> s[k] == s[cur..][k - cur];
      assert AllFull(s');
      var ring := Values(s[cur..]) + Values(s[..cur]);
      assert (ring + [m])[1..] == RingOf(s', cur');
    }
  }

  lemma RingBefore(s: seq<Slot>, cur: nat, c: Ctx)
    requires RingShaped(s, cur) && c.ring == RingOf(s, cur) && c.idx == cur
    ensures BeforeIndex(c) == Values(s[..cur])
  {
  }

  /** One slot of the playback: forwarded, passed over, or the end of it. */
  lemma ReplayStep(kept: seq<Msg>, i: nat, n: SeqNum, done: seq<Msg>)
    requires i < |kept|
    ensures var m := kept[i];
      && (m.seqNum == Plus(n, 1) ==> done + Replay(kept[i..], n) == (done + [m]) + Replay(kept[i + 1..], m.seqNum))
      && (m.seqNum > Plus(n, 1) ==> Replay(kept[i..], n) == [])
      && (m.seqNum < Plus(n, 1) ==> Replay(kept[i..], n) == Replay(kept[i + 1..], n))
      && Deliveries(done + [m], Replayed) == Deliveries(done, Replayed) + [Delivery(m, Replayed)]
  {
    assert kept[i..][0] == kept[i] && kept[i..][1..] == kept[i + 1..];
    if kept[i].seqNum == Plus(n, 1) {
      assert done + ([kept[i]] + Replay(kept[i + 1..], kept[i].seqNum)) ==
        (done + [kept[i]]) + Replay(kept[i + 1..], kept[i].seqNum);
    }
  }

  lemma ReplayOfNone(n: SeqNum)
    ensures Replay([], n) == []
  {
  }

  /** The slot of the message that arrived `j`-th of those in the ring. */
  function SlotAt(s: seq<Slot>, cur: nat, j: nat): (k: nat)
    requires RingShaped(s, cur) && j < |RingOf(s, cur)|
    ensures k < |s| && s[k].Full? && RingOf(s, cur)[j] == s[k].msg
  {
    if s[cur].Empty? then assert s[..cur][j] == s[j]; j
    else if j < |s| - cur then assert s[cur..][j] == s[cur + j]; cur + j
    else assert s[..cur][j - (|s| - cur)] == s[j - (|s| - cur)]; j - (|s| - cur)
  }

  /** A gap fill on its way: `done` forwarded, `next` wanted, `ring` looked at up to `j`. */
  predicate Filling(ring: seq<Msg>, begin: SeqNum, end: SeqNum, j: nat, next: SeqNum, done: seq<Msg>) {
    && j <= |ring|
    && Fill(ring, begin, end) == done + Fill(ring[j..], next, end)
    && FillsGap(ring, begin, end) == FillsGap(ring[j..], next, end)
  }

  lemma FillStart(ring: seq<Msg>, begin: SeqNum, end: SeqNum)
    ensures Filling(ring, begin, end, 0, begin, [])
  {
    assert ring[0..] == ring;
    assert [] + Fill(ring, begin, end) == Fill(ring, begin, end);
  }

  /** One slot of a gap fill: passed over, forwarded, or forwarded as the last of the gap. */
  lemma FillStep(ring: seq<Msg>, begin: SeqNum, end: SeqNum, j: nat, next: SeqNum, done: seq<Msg>)
    requires j < |ring| && Filling(ring, begin, end, j, next, done)
    ensures var m := ring[j];
      if m.seqNum != next then Filling(ring, begin, end, j + 1, next, done)
      else if Plus(next, 1) == end then Fill(ring, begin, end) == done + [m] && FillsGap(ring, begin, end)
      else Filling(ring, begin, end, j + 1, Plus(next, 1), done + [m])
  {
    assert ring[j..][0] == ring[j] && ring[j..][1..] == ring[j + 1..];
    assert done + ([ring[j]] + Fill(ring[j + 1..], Plus(next, 1), end)) ==
      (done + [ring[j]]) + Fill(ring[j + 1..], Plus(next, 1), end);
  }

  lemma FillEnd(ring: seq<Msg>, begin: SeqNum, end: SeqNum, next: SeqNum, done: seq<Msg>)
    requires Filling(ring, begin, end, |ring|, next, done)
    ensures Fill(ring, begin, end) == done && !FillsGap(ring, begin, end)
  {
    assert ring[|ring|..] == [];
    FillOfNone(next, end);
    assert done + [] == done;
  }

  /** What a gap fill has forwarded after the messages `done`. */
  function FillOut(done: seq<Msg>, stale: bool): seq<Delivery> {
    Deliveries(if stale then MarkStale(done) else done, Filled)
  }

  lemma FillOutNext(done: seq<Msg>, m: Msg, stale: bool)
    ensures FillOut(done + [m], stale) ==
      FillOut(done, stale) + [Delivery(Mark(m, stale), Filled)]
  {
  }

  lemma FillOfNone(next: SeqNum, end: SeqNum)
    ensures Fill([], next, end) == [] && !FillsGap([], next, end)
  {
  }

  lemma FillOutOfNone(stale: bool)
    ensures FillOut([], stale) == []
  {
  }

  function Wrapped(k: nat, size: nat): nat {
    if k == size then 0 else k
  }

  lemma SlotNext(s: seq<Slot>, cur: nat, j: nat)
    requires RingShaped(s, cur) && j < |RingOf(s, cur)|
    ensures var k := Wrapped(SlotAt(s, cur, j) + 1, |s|);
      if j + 1 == |RingOf(s, cur)| then k == cur else k != cur && k == SlotAt(s, cur, j + 1)
  {
  }

  lemma FirstSlot(s: seq<Slot>, cur: nat)
    requires RingShaped(s, cur)
    ensures var k := if s[cur].Empty? then 0 else cur;
      if RingOf(s, cur) == [] then s[k].Empty? else k == SlotAt(s, cur, 0)
  {
    assert cur > 0 ==> s[..cur][0] == s[0];
  }

  /** The slots of `s`, some of them marked as stale when `stale`. */
  predicate OnlyMarked(s: seq<Slot>, s': seq<Slot>, stale: bool) {
    && |s'| == |s|
    && forall k :: 0 <= k < |s| ==>
      s'[k] == s[k] || (stale && s[k].Full? && s'[k] == Full(s[k].msg.(status := Stale)))
  }

  function Mark(m: Msg, stale: bool): Msg {
    if stale then m.(status := Stale) else m
  }

  lemma MarkOne(s: seq<Slot>, s': seq<Slot>, stale: bool, k: nat)
    requires OnlyMarked(s, s', stale) && k < |s|
    ensures s'[k].Full? <==> s[k].Full?
    ensures s[k].Full? ==>
      && s'[k].msg.seqNum == s[k].msg.seqNum && Mark(s'[k].msg, stale) == Mark(s[k].msg, stale)
      && OnlyMarked(s, s'[k := Full(Mark(s'[k].msg, stale))], stale)
  {
  }

  lemma StillShaped(s: seq<Slot>, s': seq<Slot>, cur: nat, stale: bool)
    requires RingShaped(s, cur) && OnlyMarked(s, s', stale)
    ensures RingShaped(s', cur)
  {
    assert forall k :: 0 <= k < cur ==> s[..cur][k] == s[k];
    assert forall k :: cur <= k < |s| ==> s[cur..][k - cur] == s[k];
  }

  lemma GapFillIgnoresFlag(c: Ctx, c': Ctx, end: SeqNum)
    requires c'.ring == c.ring && c'.seqNum == c.seqNum && c'.setCacheStale == c.setCacheStale
    ensures GapFilled(c', end) == GapFilled(c, end)
  {
  }

  /** A walk once round the ring `s` from its oldest message: `j` messages seen, `cur` the slot
    * to look at, `next` the number wanted and `done` what was forwarded. */
  datatype Walk = Walk(j: nat, cur: nat, next: SeqNum, done: seq<Msg>)

  /** `slots` and `out` are what has become of the cache and of the deliveries. */
  ghost predicate Walking(s: seq<Slot>, idx: nat, begin: SeqNum, end: SeqNum, stale: bool, before: seq<Delivery>,
                          w: Walk, slots: seq<Slot>, out: seq<Delivery>)
    requires RingShaped(s, idx)
  {
    var ring := RingOf(s, idx);
    && w.j <= |ring| && w.cur < |s|
    && OnlyMarked(s, slots, stale)
    && Filling(ring, begin, end, w.j, w.next, w.done)
    && out == before + FillOut(w.done, stale)
  }

  /** The slot to look at, when there is one left. */
  ghost predicate Looking(s: seq<Slot>, idx: nat, w: Walk)
    requires RingShaped(s, idx) && w.j <= |RingOf(s, idx)| && w.cur < |s|
  {
    if w.j < |RingOf(s, idx)| then w.cur == SlotAt(s, idx, w.j) else RingOf(s, idx) == [] && s[w.cur].Empty?
  }

  lemma WalkStart(s: seq<Slot>, idx: nat, begin: SeqNum, end: SeqNum, stale: bool, before: seq<Delivery>)
    requires RingShaped(s, idx)
    ensures idx < |s|
    ensures var w := Walk(0, if s[idx].Empty? then 0 else idx, begin, []);
      Walking(s, idx, begin, end, stale, before, w, s, before) && Looking(s, idx, w)
  {
    FillOutOfNone(stale);
    assert before + [] == before;
    FirstSlot(s, idx);
    FillStart(RingOf(s, idx), begin, end);
  }

  function Moved(w: Walk, m: Msg, size: nat): (w': Walk)
    ensures w'.j == w.j + 1 && w'.cur == if w.cur + 1 == size then 0 else w.cur + 1
    ensures w'.next == if m.seqNum == w.next then Plus(w.next, 1) else w.next
  {
    if m.seqNum == w.next then Walk(w.j + 1, Wrapped(w.cur + 1, size), Plus(w.next, 1), w.done + [m])
    else Walk(w.j + 1, Wrapped(w.cur + 1, size), w.next, w.done)
  }

  lemma WalkStep(s: seq<Slot>, idx: nat, begin: SeqNum, end: SeqNum, stale: bool, before: seq<Delivery>, w: Walk,
                 slots: seq<Slot>, out: seq<Delivery>, slots': seq<Slot>, out': seq<Delivery>)
    requires RingShaped(s, idx) && Walking(s, idx, begin, end, stale, before, w, slots, out) && Looking(s, idx, w)
    requires slots[w.cur].Full?
    requires var m := Mark(slots[w.cur].msg, stale);
      if m.seqNum == w.next then slots' == slots[w.cur := Full(m)] && out' == out + [Delivery(m, Filled)]
      else slots' == slots && out' == out
    ensures OnlyMarked(s, slots', stale)
    ensures w.j < |RingOf(s, idx)| && slots[w.cur].msg.seqNum == RingOf(s, idx)[w.j].seqNum
    ensures var ring := RingOf(s, idx);
      var w' := Moved(w, ring[w.j], |s|);
      if ring[w.j].seqNum == w.next && Plus(w.next, 1) == end
      then out' == before + FillOut(Fill(ring, begin, end), stale) && FillsGap(ring, begin, end)
      else
        && Walking(s, idx, begin, end, stale, before, w', slots', out')
        && (w'.cur != idx ==> w'.j < |ring| && Looking(s, idx, w'))
        && (w'.cur == idx ==> w'.j == |ring|)
  {
    hide Filling;
    hide FillOut;
    hide RingShaped;
    hide RingOf;
    hide SlotAt;
    MarkOne(s, slots, stale, w.cur);
    hide OnlyMarked;
    var ring := RingOf(s, idx);
    assert w.j < |ring|;
    FillStep(ring, begin, end, w.j, w.next, w.done);
    SlotNext(s, idx, w.j);
    FillOutNext(w.done, ring[w.j], stale);
    assert before + (FillOut(w.done, stale) + [Delivery(Mark(ring[w.j], stale), Filled)]) ==
      (before + FillOut(w.done, stale)) + [Delivery(Mark(ring[w.j], stale), Filled)];
  }

  lemma MarkKeepsNumber(m: Msg, stale: bool)
    ensures Mark(m, stale).seqNum == m.seqNum
  {
  }

  lemma WalkSees(s: seq<Slot>, idx: nat, begin: SeqNum, end: SeqNum, stale: bool, before: seq<Delivery>, w: Walk,
                 slots: seq<Slot>, out: seq<Delivery>)
    requires RingShaped(s, idx) && Walking(s, idx, begin, end, stale, before, w, slots, out) && Looking(s, idx, w)
    ensures w.cur < |slots| == |s| && (slots[w.cur].Full? <==> w.j < |RingOf(s, idx)|)
    ensures OnlyMarked(s, slots, stale)
  {
    hide Filling;
    MarkOne(s, slots, stale, w.cur);
  }

  lemma WalkEnd(s: seq<Slot>, idx: nat, begin: SeqNum, end: SeqNum, stale: bool, before: seq<Delivery>, w: Walk,
                slots: seq<Slot>, out: seq<Delivery>)
    requires RingShaped(s, idx) && Walking(s, idx, begin, end, stale, before, w, slots, out) && w.j == |RingOf(s, idx)|
    ensures OnlyMarked(s, slots, stale)
    ensures out == before + FillOut(Fill(RingOf(s, idx), begin, end), stale) && !FillsGap(RingOf(s, idx), begin, end)
  {
    FillEnd(RingOf(s, idx), begin, end, w.next, w.done);
  }

  class Context {
    const cfg: Config
    var seqNum: SeqNum
    var state: DqState
    var sender: nat
    var doNotForward: bool
    const cache: array?<Slot>
    var curIdx: nat
    var setCacheStale: bool
    var tryToFillGap: bool
    var initialArrived: bool
    var imageCount: nat
    var expectingInitial: bool
    /** Every call of the client's message callback so far. */
    var delivered: seq<Delivery>

    ghost predicate Valid()
      reads this, cache
    {
      if cache == null then cfg.cacheSize == 0 && curIdx == 0
      else cache.Length == cfg.cacheSize && RingShaped(cache[..], curIdx)
    }

    ghost function Ring(): seq<Msg>
      requires Valid()
      reads this, cache
    {
      if cache == null then [] else RingOf(cache[..], curIdx)
    }

    ghost function Abs(): Ctx
      requires Valid()
      reads this, cache
    {
      Ctx(seqNum, state, sender, doNotForward, Ring(), curIdx, setCacheStale, tryToFillGap,
        initialArrived, imageCount, expectingInitial)
    }

    constructor (cfg: Config)
      ensures Valid() && this.cfg == cfg && Abs() == FRESH && delivered == []
      ensures cache == null || fresh(cache)
    {
      this.cfg := cfg;
      seqNum, state, sender, doNotForward := 0, NotEstablished, 0, false;
      curIdx, setCacheStale, tryToFillGap := 0, false, false;
      initialArrived, imageCount, expectingInitial := false, 0, false;
      delivered := [];
      if cfg.cacheSize > 0 {
        cache := new Slot[cfg.cacheSize](_ => Empty);
      } else {
        cache := null;
      }
    }

    method CacheMsg(m: Msg)
      requires Valid()
      modifies this`curIdx, cache
      ensures Valid() && Abs() == Cached(cfg, old(Abs()), m)
    {
      if cache == null {
        return;
      }
      RingPush(cache[..], curIdx, m);
      cache[curIdx] := Full(m);
      assert cache[..] == old(cache[..])[curIdx := Full(m)];
      curIdx := curIdx + 1;
      if curIdx == cache.Length {
        curIdx := 0;
      }
    }

    method ClearCache()
      requires Valid()
      modifies this`curIdx, cache
      ensures Valid() && Abs() == Cleared(old(Abs()))
    {
      if cache != null {
        var i := 0;
        while i < cache.Length
          invariant 0 <= i <= cache.Length
          invariant forall k :: 0 <= k < i ==> cache[k].Empty?
        {
          if cache[i].Full? {
            cache[i] := Empty;
          }
          i := i + 1;
        }
        curIdx := 0;
      }
    }

    /** Plays back the slots before the current index. */
    method ApplyPreInitialCache()
      requires Valid()
      modifies this`seqNum, this`delivered
      ensures Valid() && Abs() == Applied(old(Abs())).0
      ensures delivered == old(delivered) + Applied(old(Abs())).1
    {
      if cache == null {
        return;
      }
      ghost var kept := Values(cache[..curIdx]);
      RingBefore(cache[..], curIdx, Abs());
      assert kept == BeforeIndex(Abs());
      ReplayKept(kept);
    }

    method ReplayKept(ghost kept: seq<Msg>)
      requires Valid() && cache != null && kept == Values(cache[..curIdx])
      modifies this`seqNum, this`delivered
      ensures seqNum == LastSeqNum(Replay(kept, old(seqNum)), old(seqNum))
      ensures delivered == old(delivered) + Deliveries(Replay(kept, old(seqNum)), Replayed)
    {
      hide Replay;
      var expected := Plus(seqNum, 1);
      var i := 0;
      ghost var done: seq<Msg> := [];
      assert kept[0..] == kept;
      while i < curIdx
        invariant 0 <= i <= curIdx
        invariant expected == Plus(seqNum, 1)
        invariant Replay(kept, old(seqNum)) == done + Replay(kept[i..], seqNum)
        invariant seqNum == LastSeqNum(done, old(seqNum))
        invariant delivered == old(delivered) + Deliveries(done, Replayed)
      {
        assert cache[..curIdx][i] == cache[i];
        if cache[i].Empty? {
          assert false;
        }
        ReplayStep(kept, i, seqNum, done);
        var n := cache[i].msg.seqNum;
        if expected == n {
          Deliver(cache[i].msg, Replayed);
          done := done + [kept[i]];
          seqNum := n;
          expected := Plus(n, 1);
        } else if n > expected {
          assert Replay(kept, old(seqNum)) == done;
          return;
        }
        i := i + 1;
      }
      assert kept[i..] == [];
      ReplayOfNone(seqNum);
    }

    method Deliver(m: Msg, how: How)
      modifies this`delivered
      ensures delivered == old(delivered) + [Delivery(m, how)]
    {
      delivered := delivered + [Delivery(m, how)];
    }

    /** Goes once round the ring from its oldest message and forwards the numbers of the gap. */
    method FillGap(end: SeqNum) returns (filled: bool)
      requires Valid()
      modifies this`setCacheStale, this`delivered, cache
      ensures Valid() && filled == GapFilled(old(Abs()), end).0
      ensures delivered == old(delivered) + GapFilled(old(Abs()), end).1
      ensures Cleared(Abs()) == Cleared(old(Abs())).(setCacheStale := filled && old(setCacheStale))
    {
      filled := false;
      if cache != null {
        filled := FillFromCache(end);
      } else {
        FillOfNone(Plus(seqNum, 1), end);
      }
      if !filled {
        setCacheStale := false;
      }
    }

    /** Looks at one cached message and forwards it if it has the number wanted, marking it first
      * when the cache is to be passed on as stale. */
    method Offer(cur: nat, next: SeqNum) returns (taken: bool)
      requires cache != null && cur < cache.Length && cache[cur].Full?
      modifies this`delivered, cache
      ensures taken == (old(cache[cur].msg.seqNum) == next)
      ensures var m := Mark(old(cache[cur].msg), setCacheStale);
        if taken then
          cache[..] == old(cache[..])[cur := Full(m)] && delivered == old(delivered) + [Delivery(m, Filled)]
        else cache[..] == old(cache[..]) && delivered == old(delivered)
    {
      taken := cache[cur].msg.seqNum == next;
      if taken {
        if setCacheStale {
          cache[cur] := Full(cache[cur].msg.(status := Stale));
        }
        Deliver(cache[cur].msg, Filled);
      }
    }

    method FillFromCache(end: SeqNum) returns (filled: bool)
      requires Valid() && cache != null
      modifies this`delivered, cache
      ensures Valid() && filled == FillsGap(old(Ring()), Plus(seqNum, 1), end)
      ensures delivered == old(delivered) + FillOut(Fill(old(Ring()), Plus(seqNum, 1), end), setCacheStale)
    {
      filled := GoRound(end, cache[..]);
      StillShaped(old(cache[..]), cache[..], curIdx, setCacheStale);
    }

    /** One turn of the loop in FillGap. */
    method Look(cur: nat, next: SeqNum, ghost s: seq<Slot>, ghost begin: SeqNum, ghost end: SeqNum,
                ghost before: seq<Delivery>, ghost w: Walk)
      returns (taken: bool, cur': nat, next': SeqNum, ghost w': Walk)
      requires cache != null && RingShaped(s, curIdx) && w.cur == cur && w.next == next
      requires Walking(s, curIdx, begin, end, setCacheStale, before, w, cache[..], delivered) && Looking(s, curIdx, w)
      requires cur < cache.Length && cache[cur].Full?
      modifies this`delivered, cache
      ensures w'.j == w.j + 1 <= |RingOf(s, curIdx)| && w'.cur == cur' < cache.Length && w'.next == next'
      ensures OnlyMarked(s, cache[..], setCacheStale)
      ensures if taken && next' == end
        then delivered == before + FillOut(Fill(RingOf(s, curIdx), begin, end), setCacheStale) &&
          FillsGap(RingOf(s, curIdx), begin, end)
        else
          && Walking(s, curIdx, begin, end, setCacheStale, before, w', cache[..], delivered)
          && (if cur' != curIdx then Looking(s, curIdx, w') else w'.j == |RingOf(s, curIdx)|)
    {
      hide *;
      ghost var slots, out := cache[..], delivered;
      WalkSees(s, curIdx, begin, end, setCacheStale, before, w, slots, out);
      MarkKeepsNumber(slots[cur].msg, setCacheStale);
      taken := Offer(cur, next);
      WalkStep(s, curIdx, begin, end, setCacheStale, before, w, slots, out, cache[..], delivered);
      w' := Moved(w, RingOf(s, curIdx)[w.j], |s|);
      next' := if taken then Plus(next, 1) else next;
      cur' := cur + 1;
      if cur' == cache.Length {
        cur' := 0;
      }
    }

    method GoRound(end: SeqNum, ghost s: seq<Slot>) returns (filled: bool)
      requires cache != null && s == cache[..] && RingShaped(s, curIdx)
      modifies this`delivered, cache
      ensures OnlyMarked(s, cache[..], setCacheStale)
      ensures filled == FillsGap(RingOf(s, curIdx), Plus(seqNum, 1), end)
      ensures delivered == old(delivered) + FillOut(Fill(RingOf(s, curIdx), Plus(seqNum, 1), end), setCacheStale)
    {
      hide *;
      ghost var begin, before := Plus(seqNum, 1), delivered;
      WalkStart(s, curIdx, begin, end, setCacheStale, before);
      var next := Plus(seqNum, 1);
      var cur := if cache[curIdx].Empty? then 0 else curIdx;
      var more, taken := true, false;
      filled := false;
      ghost var w := Walk(0, cur, begin, []);
      while more
        invariant w.cur == cur && w.next == next && w.j <= |RingOf(s, curIdx)| && cur < |s|
        invariant Walking(s, curIdx, begin, end, setCacheStale, before, w, cache[..], delivered)
        invariant if more then Looking(s, curIdx, w) else w.j == |RingOf(s, curIdx)|
        decreases |RingOf(s, curIdx)| - w.j, more
      {
        WalkSees(s, curIdx, begin, end, setCacheStale, before, w, cache[..], delivered);
        if cache[cur].Empty? {
          break;
        }
        taken, cur, next, w := Look(cur, next, s, begin, end, before, w);
        if taken && next == end {
          filled := true;
          return;
        }
        more := cur != curIdx;
      }
      WalkEnd(s, curIdx, begin, end, setCacheStale, before, w, cache[..], delivered);
    }

    method ResetDqState()
      modifies this`state
      ensures state == OkState
    {
      state := OkState;
    }

    method ResetDqContext(seqNum: SeqNum, sender: nat)
      modifies this`seqNum, this`sender
      ensures this.seqNum == seqNum && this.sender == sender
    {
      this.seqNum := seqNum;
      this.sender := sender;
    }

    method HandleFtTakeover(seqNum: SeqNum, sender: nat, recoverOnRecap: bool)
      modifies this`seqNum, this`sender, this`state
      ensures this.seqNum == seqNum
      ensures if recoverOnRecap then this.sender == old(this.sender) && state == WaitingForRecapAfterFt
        else this.sender == sender && state == OkState
    {
      if recoverOnRecap {
        this.seqNum := seqNum;
        state := WaitingForRecapAfterFt;
      } else {
        ResetDqState();
        ResetDqContext(seqNum, sender);
      }
    }

    /** The recap request itself goes to the image request, which is not modelled. */
    method SendRecapRequest()
      modifies this`state
      ensures state == WaitingForRecap
    {
      state := WaitingForRecap;
    }

    method HandleStaleData(m: Msg) returns (m': Msg)
      modifies this`state
      ensures state == WaitingForRecap && m' == m.(status := Stale)
    {
      m' := m.(status := Stale);
      if state != WaitingForRecap && state != PossiblyStaleState {
        SendRecapRequest();
      } else if state == PossiblyStaleState && state != WaitingForRecap {
        SendRecapRequest();
      }
    }

    method CloseGap()
      requires Valid()
      modifies this`tryToFillGap, this`curIdx, cache
      ensures Valid() && Abs() == GapClosed(old(Abs()))
    {
      if tryToFillGap {
        tryToFillGap := false;
        ClearCache();
      }
    }

    /** The part of the check for messages that are not images. */
    method CheckUpdateSeqNum(m: Msg, ctxSeqNum: SeqNum, ctxState: DqState) returns (m': Msg)
      requires Valid()
      modifies this`state, this`seqNum, this`doNotForward, this`tryToFillGap, this`setCacheStale, this`curIdx,
        this`delivered, cache
      ensures Valid()
      ensures var k := CheckUpdate(cfg, ctxSeqNum, ctxState, old(Abs()), m);
        Abs() == k.c && m' == k.m && delivered == old(delivered) + k.out
    {
      hide RingShaped;
      hide RingOf;
      hide Plus;
      hide Increment;
      hide AllFull;
      hide Values;
      hide GapMet;
      hide GapClosed;
      m' := m;
      if ctxState == NotEstablished || m.seqNum == 0 || m.seqNum == Plus(ctxSeqNum, Increment(m)) {
        CloseGap();
        if m.status == Ok {
          ResetDqState();
          seqNum := m.seqNum;
          return;
        }
      }
      if cfg.ignoreDups && m.seqNum <= ctxSeqNum {
        doNotForward := true;
        return;
      }
      if m.seqNum == ctxSeqNum && ctxState != WaitingForRecapAfterFt {
        state := DuplicateState;
        m' := m.(status := Duplicate);
        return;
      }
      if ctxState == WaitingForRecapAfterFt {
        doNotForward := true;
        return;
      }
      m' := HandleGap(m);
    }

    method HandleGap(m: Msg) returns (m': Msg)
      requires Valid()
      modifies this`state, this`seqNum, this`tryToFillGap, this`setCacheStale, this`curIdx, this`delivered, cache
      ensures Valid()
      ensures var k := GapMet(cfg, old(Abs()), m);
        Abs() == k.c && m' == k.m && delivered == old(delivered) + k.out
    {
      hide RingShaped;
      hide RingOf;
      hide GapFilled;
      if !cfg.onInitial && tryToFillGap {
        tryToFillGap := false;
        GapFillIgnoresFlag(old(Abs()), Abs(), m.seqNum);
        var filled := FillGap(m.seqNum);
        if filled {
          ClearCache();
          seqNum := m.seqNum;
          return m;
        }
        ClearCache();
      }
      m' := HandleStaleData(m);
    }

    /** The part of the check for initials, which fall through to that for recaps. */
    method CheckImageSeqNum(m: Msg)
      requires Valid() && (IsInitial(m.kind) || IsRecap(m.kind))
      modifies this`state, this`seqNum, this`sender, this`tryToFillGap, this`doNotForward
      ensures Valid() && Abs() == CheckImage(cfg, old(Abs()), m)
    {
      hide RingShaped;
      hide RingOf;
      if IsInitial(m.kind) {
        tryToFillGap := true;
        if m.status == PossiblyStale || m.status == Stale {
          state := StaleNoRecap;
          ResetDqContext(m.seqNum, m.sender);
          return;
        }
      }
      if cfg.preRecapCache {
        tryToFillGap := true;
      }
      ResetDqState();
      ResetDqContext(m.seqNum, m.sender);
      doNotForward := false;
    }

    method CheckSeqNum(m: Msg) returns (m': Msg)
      requires Valid()
      modifies this, cache
      ensures Valid()
      ensures var k := DataQuality.CheckSeqNum(cfg, old(Abs()), m);
        Abs() == k.c && m' == k.m && delivered == old(delivered) + k.out
    {
      hide RingShaped;
      hide RingOf;
      hide CheckUpdate;
      hide CheckImage;
      m' := m;
      var ctxSeqNum, ctxState := seqNum, state;
      doNotForward := false;
      if sender != 0 && m.sender != 0 && sender != m.sender {
        if cfg.waitForRecap {
          doNotForward := true;
          HandleFtTakeover(m.seqNum, m.sender, true);
        } else {
          HandleFtTakeover(m.seqNum, m.sender, false);
          return;
        }
      }
      if IsInitial(m.kind) || IsRecap(m.kind) {
        CheckImageSeqNum(m);
      } else if m.kind != DictSnapshot {
        m' := CheckUpdateSeqNum(m, ctxSeqNum, ctxState);
      }
    }

    method SetPossiblyStale()
      requires Valid()
      modifies this`state
      ensures Valid() && Abs() == MadePossiblyStale(old(Abs()))
    {
      if state == OkState {
        state := PossiblyStaleState;
      }
    }

    method ProcessPointToPointMessage(m: Msg)
      requires Valid()
      modifies this, cache
      ensures Valid() && Abs() == ImageArrived(cfg, old(Abs()), m).0
      ensures delivered == old(delivered) + ImageArrived(cfg, old(Abs()), m).1
    {
      hide RingShaped;
      hide RingOf;
      hide DataQuality.CheckSeqNum;
      hide Applied;
      hide Replays;
      if m.last {
        imageCount := imageCount + 1;
        initialArrived := true;
      }
      var m' := CheckSeqNum(m);
      Deliver(m', Image);
      CatchUp(m.kind);
    }

    method CatchUp(k: Kind)
      requires Valid()
      modifies this`seqNum, this`delivered, this`curIdx, cache
      ensures Valid()
      ensures Abs() == (if Replays(cfg, k) then Cleared(Applied(old(Abs())).0) else old(Abs()))
      ensures delivered == old(delivered) + (if Replays(cfg, k) then Applied(old(Abs())).1 else [])
    {
      hide RingShaped;
      hide RingOf;
      hide Applied;
      if cfg.onInitial {
        if IsInitial(k) || (cfg.preRecapCache && IsRecap(k)) {
          ApplyPreInitialCache();
          ClearCache();
        }
      }
    }

    /** What reaches the context of a message that is not an image. */
    method ProcessUpdate(m: Msg)
      requires Valid()
      modifies this, cache
      ensures Valid() && Abs() == UpdateArrived(cfg, old(Abs()), m).0
      ensures delivered == old(delivered) + UpdateArrived(cfg, old(Abs()), m).1
    {
      hide RingShaped;
      hide RingOf;
      hide DataQuality.CheckSeqNum;
      hide Cached;
      if (expectingInitial && !initialArrived) ||
        (state == WaitingForRecap && cfg.preRecapCache && m.kind != Delete && m.kind != Expire &&
          m.kind != UnknownKind) {
        if state == WaitingForRecap && cfg.preRecapCache {
          setCacheStale := true;
        }
        CacheMsg(m);
        return;
      }
      if !IsControl(m.kind) {
        var m' := CheckSeqNum(m);
        if !doNotForward {
          Deliver(m', Direct);
        }
      }
    }

    method ProcessMsg(m: Msg)
      requires Valid()
      modifies this, cache
      ensures Valid() && Abs() == Processed(cfg, old(Abs()), m).0
      ensures delivered == old(delivered) + Processed(cfg, old(Abs()), m).1
    {
      hide RingShaped;
      hide RingOf;
      hide ImageArrived;
      hide UpdateArrived;
      match m.status {
        case NotPermissioned | BadSymbol | Expired | NotFound | Timeout | NoSubscribers | BandwidthExceeded =>
          return;
        case UnknownStatus =>
          SetPossiblyStale();
          return;
        case PossiblyStale =>
          if m.kind == MiscKind {
            SetPossiblyStale();
          }
        case _ =>
      }
      if IsImage(m.kind) {
        ProcessPointToPointMessage(m);
      } else {
        ProcessUpdate(m);
      }
    }

    method RequestRecap()
      requires Valid()
      modifies this`state
      ensures Valid() && Abs() == old(Abs()).(state := WaitingForRecap)
    {
      SendRecapRequest();
    }

    /** Any input: the object is a run of DataQuality. */
    method Handle(i: Input)
      requires Valid()
      modifies this, cache
      ensures Valid() && Abs() == Handled(cfg, old(Abs()), i).0
      ensures delivered == old(delivered) + Handled(cfg, old(Abs()), i).1
    {
      match i
      case Arrive(m) => ProcessMsg(m);
      case TransportStale => SetPossiblyStale();
      case RequestRecap => RequestRecap();
      case ExpectInitial(on) => expectingInitial := on;
    }
  }

  /** A new subscription fed a list of inputs ends where the run says, having delivered what the
    * run says. */
  method Feed(cfg: Config, inputs: seq<Input>) returns (c: Context)
    ensures c.Valid() && (c.Abs(), c.delivered) == After(cfg, inputs)
  {
    hide *;
    c := new Context(cfg);
    FedNothing(cfg);
    var i := 0;
    while i < |inputs|
      invariant 0 <= i <= |inputs| && c.Valid() && c.cfg == cfg
      invariant fresh(c) && (c.cache == null || fresh(c.cache))
      invariant (c.Abs(), c.delivered) == After(cfg, inputs[..i])
    {
      FedOneMore(cfg, inputs, i);
      c.Handle(inputs[i]);
      i := i + 1;
    }
    assert inputs[..i] == inputs;
  }

  lemma FedNothing(cfg: Config)
    ensures After(cfg, []) == (FRESH, [])
  {
  }

  lemma FedOneMore(cfg: Config, inputs: seq<Input>, i: nat)
    requires i < |inputs|
    ensures var (c, out) := After(cfg, inputs[..i]);
      var (c', out') := Handled(cfg, c, inputs[i]);
      After(cfg, inputs[..i + 1]) == (c', out + out')
  {
    hide Handled;
    assert inputs[..i + 1][..i] == inputs[..i];
  }
}
