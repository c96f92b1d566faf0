/** Which messages reach the client of a subscription, and in which order, over whole runs. */
module DataQualityRuns {
  import opened Common
  import opened DataQuality

  // ---------- the ring ----------

  function Last<T>(s: seq<T>, n: nat): seq<T> {
    if |s| <= n then s else s[|s| - n..]
  }

  function PushedAll(ring: seq<Msg>, ms: seq<Msg>, size: nat): seq<Msg> {
    if ms == [] then ring else Pushed(PushedAll(ring, ms[..|ms| - 1], size), ms[|ms| - 1], size)
  }

  lemma LastSnoc<T>(s: seq<T>, x: T, n: nat)
    ensures Last(Last(s, n) + [x], n) == Last(s + [x], n)
  {
  }

  /** After any number of messages since it was cleared, the ring holds the last `size` of them. */
  lemma {:induction false} RingHoldsLast(ms: seq<Msg>, size: nat)
    ensures PushedAll([], ms, size) == Last(ms, size)
  {
    if ms != [] {
      var p, m := ms[..|ms| - 1], ms[|ms| - 1];
      RingHoldsLast(p, size);
      LastSnoc(p, m, size);
      assert p + [m] == ms;
      assert Pushed(Last(p, size), m, size) == Last(Last(p, size) + [m], size);
    }
  }

  // ---------- filling a gap ----------

  /** `at` picks the numbers `begin` .. `end` - 1 out of `s`, in order of arrival. */
  ghost predicate Picks(s: seq<Msg>, begin: int, end: int, at: seq<nat>) {
    && |at| == end - begin
    && (forall k :: 0 <= k < |at| ==> at[k] < |s| && s[at[k]].seqNum == begin + k)
    && (forall j, k :: 0 <= j < k < |at| ==> at[j] < at[k])
  }

  lemma {:induction false} FillFound(s: seq<Msg>, begin: SeqNum, end: SeqNum) returns (at: seq<nat>)
    requires begin < end && FillsGap(s, begin, end)
    ensures Picks(s, begin, end, at)
  {
    var rest: seq<nat>;
    if s[0].seqNum != begin {
      rest := FillFound(s[1..], begin, end);
      at := seq(|rest|, i requires 0 <= i < |rest| => rest[i] + 1);
    } else if begin + 1 == end {
      at := [0];
    } else {
      rest := FillFound(s[1..], begin + 1, end);
      at := [0] + seq(|rest|, i requires 0 <= i < |rest| => rest[i] + 1);
    }
  }

  lemma {:induction false} FillFinds(s: seq<Msg>, begin: SeqNum, end: SeqNum, at: seq<nat>)
    requires begin < end && Picks(s, begin, end, at)
    ensures FillsGap(s, begin, end)
    decreases |s|
  {
    assert at[0] < |s|;
    if s[0].seqNum != begin {
      assert forall k :: 0 <= k < |at| ==> at[k] >= at[0] > 0;
      FillFinds(s[1..], begin, end, seq(|at|, i requires 0 <= i < |at| => at[i] - 1));
    } else if begin + 1 != end {
      var rest := at[1..];
      assert forall k :: 0 <= k < |rest| ==> rest[k] == at[k + 1] > at[0];
      FillFinds(s[1..], begin + 1, end, seq(|rest|, i requires 0 <= i < |rest| => rest[i] - 1));
    }
  }

  /** `s` holds the numbers `begin` .. `end` - 1 in order of arrival. */
  ghost predicate HoldsInOrder(s: seq<Msg>, begin: int, end: int) {
    exists at :: Picks(s, begin, end, at)
  }

  /** A gap is filled exactly when the ring holds the missing numbers in order of arrival. */
  lemma {:induction false} FillsGapExactlyWhenCached(s: seq<Msg>, begin: SeqNum, end: SeqNum)
    requires begin < end
    ensures FillsGap(s, begin, end) <==> HoldsInOrder(s, begin, end)
  {
    if FillsGap(s, begin, end) {
      var at := FillFound(s, begin, end);
    }
    if at :| Picks(s, begin, end, at) {
      FillFinds(s, begin, end, at);
    }
  }

  /** Filled or not, what is forwarded counts up from `begin` and stops before `end`; it is all of
    * the gap exactly when the fill succeeds. */
  lemma {:induction false} FillCountsUp(s: seq<Msg>, begin: SeqNum, end: SeqNum)
    requires begin < end
    ensures var r := Fill(s, begin, end);
      && |r| <= end - begin
      && (FillsGap(s, begin, end) <==> |r| == end - begin)
      && forall k :: 0 <= k < |r| ==> r[k].seqNum == begin + k && r[k] in s
  {
    if s != [] {
      if s[0].seqNum != begin {
        FillCountsUp(s[1..], begin, end);
      } else if begin + 1 != end {
        FillCountsUp(s[1..], begin + 1, end);
        var rest := Fill(s[1..], begin + 1, end);
        forall k | 0 <= k < |rest| + 1
          ensures ([s[0]] + rest)[k].seqNum == begin + k && ([s[0]] + rest)[k] in s
        {
          assert k > 0 ==> rest[k - 1] in s[1..];
        }
      }
    }
  }

  /** No message of `s` has the number `n`. */
  predicate Lacks(s: seq<Msg>, n: SeqNum) {
    forall k :: 0 <= k < |s| ==> s[k].seqNum != n
  }

  /** A fill forwards nothing exactly when not even its first number is there. */
  lemma {:induction false} NothingToFill(s: seq<Msg>, begin: SeqNum, end: SeqNum)
    ensures Fill(s, begin, end) == [] <==> Lacks(s, begin)
    ensures Lacks(s, begin) ==> !FillsGap(s, begin, end)
  {
    if s != [] {
      NothingToFill(s[1..], begin, end);
      assert s == [s[0]] + s[1..];
    }
  }

  /** A fill towards a number that is not ahead: as long as the numbers do not wrap round it never
    * gets there, and forwards all it finds from `begin` on. */
  lemma {:induction false} LateFillCountsUp(s: seq<Msg>, begin: SeqNum, end: SeqNum)
    requires 0 < end <= begin && begin + |s| <= 0x1_0000_0000
    ensures !FillsGap(s, begin, end)
    ensures var r := Fill(s, begin, end); |r| <= |s| && forall k :: 0 <= k < |r| ==> r[k].seqNum == begin + k
  {
    if s != [] {
      if s[0].seqNum != begin {
        LateFillCountsUp(s[1..], begin, end);
      } else if begin + 1 < 0x1_0000_0000 {
        LateFillCountsUp(s[1..], begin + 1, end);
      } else {
        assert s[1..] == [];
      }
    }
  }

  // ---------- order of what is delivered ----------

  /** Delivered as current data: an image, a replayed update, or an update the check did not mark. */
  predicate Good(d: Delivery) {
    d.how == Image || d.how == Replayed || !(d.msg.status.Stale? || d.msg.status.Duplicate?)
  }

  /** `b` is an image or has the number that comes after `a`. */
  predicate Follows(n: SeqNum, b: Delivery) {
    b.how == Image || b.msg.seqNum == Plus(n, if b.how == Direct then Increment(b.msg) else 1)
  }

  /** No good delivery lies strictly between positions `i` and `j`. */
  predicate NoneBetween(out: seq<Delivery>, i: nat, j: nat)
    requires j <= |out|
  {
    forall k :: i < k < j ==> !Good(out[k])
  }

  /** Every good delivery follows the good delivery before it. */
  ghost predicate InOrder(out: seq<Delivery>) {
    forall i: nat, j: nat :: i < j < |out| && Good(out[i]) && Good(out[j]) && NoneBetween(out, i, j) ==>
      Follows(out[i].msg.seqNum, out[j])
  }

  /** In order so far, the last good delivery having number `n`. */
  ghost predicate Ordered(out: seq<Delivery>, n: SeqNum) {
    && InOrder(out)
    && forall i: nat :: i < |out| && Good(out[i]) && NoneBetween(out, i, |out|) ==> out[i].msg.seqNum == n
  }

  predicate NothingGood(out: seq<Delivery>) {
    forall i: nat :: i < |out| ==> !Good(out[i])
  }

  lemma Extend(out: seq<Delivery>, n: SeqNum, d: Delivery)
    requires Ordered(out, n)
    requires Good(d) ==> NothingGood(out) || Follows(n, d)
    ensures Ordered(out + [d], if Good(d) then d.msg.seqNum else n)
  {
    var all := out + [d];
    forall i: nat, j: nat | i < j < |all| && Good(all[i]) && Good(all[j]) && NoneBetween(all, i, j)
      ensures Follows(all[i].msg.seqNum, all[j])
    {
      assert forall k :: i < k < j ==> out[k] == all[k];
      assert NoneBetween(out, i, j);
    }
    forall i: nat | i < |all| && Good(all[i]) && NoneBetween(all, i, |all|)
      ensures all[i].msg.seqNum == if Good(d) then d.msg.seqNum else n
    {
      if i < |out| {
        assert !Good(all[|out|]);
        assert forall k :: i < k < |out| ==> out[k] == all[k];
        assert NoneBetween(out, i, |out|);
      }
    }
  }

  /** `more` carries on from number `n` (from any number when `first`) and ends at `last`. */
  predicate Leads(n: SeqNum, first: bool, more: seq<Delivery>, last: SeqNum)
    decreases |more|
  {
    if more == [] then last == n
    else if Good(more[0]) then
      (first || Follows(n, more[0])) && Leads(more[0].msg.seqNum, false, more[1..], last)
    else Leads(n, first, more[1..], last)
  }

  lemma {:induction false} ExtendAll(out: seq<Delivery>, n: SeqNum, first: bool, more: seq<Delivery>, last: SeqNum)
    requires Ordered(out, n) && Leads(n, first, more, last) && (first ==> NothingGood(out))
    ensures Ordered(out + more, last)
    decreases |more|
  {
    if more == [] {
      assert out + more == out;
    } else {
      Extend(out, n, more[0]);
      var n' := if Good(more[0]) then more[0].msg.seqNum else n;
      ExtendAll(out + [more[0]], n', first && !Good(more[0]), more[1..], last);
      assert out + more == out + [more[0]] + more[1..];
    }
  }

  /** What a replay forwards is consecutive from `n`. */
  lemma {:induction false} ReplayLeads(s: seq<Msg>, n: SeqNum)
    ensures var r := Replay(s, n); Leads(n, false, Deliveries(r, Replayed), LastSeqNum(r, n))
  {
    if s != [] {
      if s[0].seqNum == Plus(n, 1) {
        ReplayLeads(s[1..], s[0].seqNum);
        var rest := Replay(s[1..], s[0].seqNum);
        assert Deliveries([s[0]] + rest, Replayed)[1..] == Deliveries(rest, Replayed);
      } else if s[0].seqNum <= Plus(n, 1) {
        ReplayLeads(s[1..], n);
      }
    }
  }

  predicate Marked(m: Msg) {
    m.status.Stale? || m.status.Duplicate?
  }

  /** How many messages at the front are not marked. */
  function Unmarked(r: seq<Msg>): (p: nat)
    ensures p <= |r|
  {
    if r == [] || Marked(r[0]) then 0 else 1 + Unmarked(r[1..])
  }

  predicate AllMarked(r: seq<Msg>) {
    forall k :: 0 <= k < |r| ==> Marked(r[k])
  }

  lemma FilledStep(r: seq<Msg>, n: SeqNum, tail: seq<Delivery>, last: SeqNum)
    ensures r == [] ==> Deliveries(r, Filled) + tail == tail
    ensures r != [] ==>
      (Leads(n, false, Deliveries(r, Filled) + tail, last) <==>
        if Marked(r[0]) then Leads(n, false, Deliveries(r[1..], Filled) + tail, last)
        else r[0].seqNum == Plus(n, 1) && Leads(r[0].seqNum, false, Deliveries(r[1..], Filled) + tail, last))
  {
    if r != [] {
      assert (Deliveries(r, Filled) + tail)[1..] == Deliveries(r[1..], Filled) + tail;
    }
  }

  lemma NoneMarked()
    ensures AllMarked([]) && Unmarked([]) == 0
  {
  }

  lemma MarkedStep(r: seq<Msg>, rest: seq<Msg>)
    requires r != [] && rest == r[1..]
    ensures AllMarked(r) <==> Marked(r[0]) && AllMarked(rest)
    ensures Marked(r[0]) ==> Unmarked(r) == 0 && r[0..] == r
    ensures !Marked(r[0]) ==> Unmarked(r) == 1 + Unmarked(rest) && r[Unmarked(r)..] == rest[Unmarked(rest)..]
  {
    assert r == [r[0]] + rest;
  }

  /** Numbers beyond the next one carry the order on exactly when all of them are marked. */
  lemma {:induction false} SkippingLeads(r: seq<Msg>, n: SeqNum, tail: seq<Delivery>, last: SeqNum)
    requires forall k :: 0 <= k < |r| ==> r[k].seqNum > n + 1
    ensures Leads(n, false, Deliveries(r, Filled) + tail, last) <==> AllMarked(r) && Leads(n, false, tail, last)
    decreases |r|
  {
    hide Leads;
    hide Deliveries;
    FilledStep(r, n, tail, last);
    if r != [] {
      MarkedStep(r, r[1..]);
      if Marked(r[0]) {
        SkippingLeads(r[1..], n, tail, last);
      }
    }
  }

  /** Numbers that count up from `n` carry the order on exactly when no unmarked one comes after a
    * marked one; then the order goes on from the last unmarked one. */
  lemma {:induction false} CountingLeads(r: seq<Msg>, n: SeqNum, tail: seq<Delivery>, last: SeqNum)
    requires n + |r| < 0x1_0000_0000 && forall k :: 0 <= k < |r| ==> r[k].seqNum == n + 1 + k
    ensures Leads(n, false, Deliveries(r, Filled) + tail, last) <==>
      AllMarked(r[Unmarked(r)..]) && Leads(n + Unmarked(r), false, tail, last)
    decreases |r|
  {
    hide Leads;
    hide Deliveries;
    hide AllMarked;
    hide Unmarked;
    FilledStep(r, n, tail, last);
    UnmarkedInside(r);
    NoneMarked();
    if r != [] {
      var rest := r[1..];
      MarkedStep(r, rest);
      if Marked(r[0]) {
        SkippingLeads(rest, n, tail, last);
      } else {
        UnmarkedInside(rest);
        CountingLeads(rest, n + 1, tail, last);
      }
    }
  }

  lemma OneLeads(n: SeqNum, first: bool, d: Delivery, last: SeqNum)
    ensures Leads(n, first, [d], last) <==>
      if Good(d) then (first || Follows(n, d)) && last == d.msg.seqNum else last == n
  {
  }

  /** One publisher with sender id `s`, and only messages that carry a number. */
  predicate FromOne(s: nat, i: Input) {
    i.Arrive? ==>
      && i.m.sender in {0, s}
      && i.m.seqNum != 0
      && !(i.m.kind.Snapshot? || i.m.kind.BookSnapshot? || i.m.kind.DictSnapshot?)
  }

  predicate AllFromOne(s: nat, inputs: seq<Input>) {
    forall k :: 0 <= k < |inputs| ==> FromOne(s, inputs[k])
  }

  ghost predicate OrderInv(s: nat, c: Ctx, out: seq<Delivery>) {
    && Ordered(out, c.seqNum)
    && (NothingGood(out) || c.state != NotEstablished)
    && Settled(s, c)
  }

  /** The check of an update that skips numbers tries to fill the gap from the cache. */
  predicate ReachesFill(cfg: Config, c: Ctx, m: Msg) {
    && !cfg.onInitial && c.tryToFillGap && c.state != NotEstablished
    && m.seqNum != 0 && m.seqNum != Plus(c.seqNum, Increment(m))
    && !(cfg.ignoreDups && m.seqNum <= c.seqNum) && m.seqNum != c.seqNum
  }

  /** An update with no takeover in sight and no gap to fill: the number it leaves behind, and its
    * mark. */
  lemma UpdateChecked(cfg: Config, c: Ctx, m: Msg)
    requires !ReachesFill(cfg, c, m) && !Takeover(c, m) && m.seqNum != 0 && c.state != WaitingForRecapAfterFt
    requires !IsImage(m.kind)
    ensures var k := CheckSeqNum(cfg, c, m);
      && k.out == []
      && k.c.sender == c.sender
      && k.c.state != WaitingForRecapAfterFt
      && k.m.seqNum == m.seqNum && k.m.kind == m.kind && k.m.conflate == m.conflate
      && (k.c.state == NotEstablished ==> c.state == NotEstablished && k.c.doNotForward)
      && (if k.c.doNotForward || (k.m.status.Stale? || k.m.status.Duplicate?) then k.c.seqNum == c.seqNum
          else k.c.seqNum == m.seqNum && (c.state == NotEstablished || m.seqNum == Plus(c.seqNum, Increment(m))))
  {
    hide CheckSeqNum;
    hide GapMet;
    hide GapClosed;
    CheckIsUpdate(cfg, c, m);
    var c0 := c.(doNotForward := false);
    var noGap := c.state == NotEstablished || m.seqNum == 0 || m.seqNum == Plus(c.seqNum, Increment(m));
    ClosedKeeps(c0);
    NotFilled(cfg, if noGap then GapClosed(c0) else c0, m);
  }

  lemma ClosedKeeps(c: Ctx)
    ensures var c' := GapClosed(c);
      && !c'.tryToFillGap && c'.seqNum == c.seqNum && c'.state == c.state
      && c'.sender == c.sender && c'.doNotForward == c.doNotForward
  {
  }

  lemma NotFilled(cfg: Config, c: Ctx, m: Msg)
    ensures cfg.onInitial || !c.tryToFillGap ==>
      GapMet(cfg, c, m) == Checked(c.(state := WaitingForRecap), m.(status := Stale), [])
  {
  }

  lemma CheckIsUpdate(cfg: Config, c: Ctx, m: Msg)
    requires !Takeover(c, m) && !IsImage(m.kind)
    ensures CheckSeqNum(cfg, c, m) == CheckUpdate(cfg, c.seqNum, c.state, c.(doNotForward := false), m)
  {
    hide CheckUpdate;
  }

  // ---------- a gap filled while running ----------

  /** A message that skips numbers while a fill may be tried. */
  predicate TriesToFill(cfg: Config, c: Ctx, m: Msg) {
    ReachesFill(cfg, c, m) && !Takeover(c, m) && c.state != WaitingForRecapAfterFt && !IsImage(m.kind)
  }

  function AfterFill(c: Ctx, m: Msg): Ctx {
    var c1 := Cleared(c.(doNotForward := false, tryToFillGap := false));
    if FillsGap(c.ring, Plus(c.seqNum, 1), m.seqNum) then c1.(seqNum := m.seqNum)
    else c1.(setCacheStale := false, state := WaitingForRecap)
  }

  /** What the check then does. */
  lemma FillTried(cfg: Config, c: Ctx, m: Msg)
    requires TriesToFill(cfg, c, m)
    ensures CheckSeqNum(cfg, c, m) == Checked(
      AfterFill(c, m),
      if FillsGap(c.ring, Plus(c.seqNum, 1), m.seqNum) then m else m.(status := Stale),
      var r := Fill(c.ring, Plus(c.seqNum, 1), m.seqNum);
      Deliveries(if c.setCacheStale then MarkStale(r) else r, Filled))
  {
    hide Fill;
    hide FillsGap;
    hide Deliveries;
    hide MarkStale;
    hide CheckImage;
    hide CheckSeqNum;
    CheckIsUpdate(cfg, c, m);
  }

  /** The numbers a fill may forward do not wrap round at 32 bits. */
  predicate NoWrap(c: Ctx, m: Msg) {
    c.seqNum + 1 < m.seqNum || c.seqNum + |c.ring| < 0x1_0000_0000
  }

  /** The message is ahead of the context, and the cache holds all in between in order of arrival. */
  ghost predicate Closes(c: Ctx, m: Msg) {
    c.seqNum + 1 < m.seqNum && HoldsInOrder(c.ring, c.seqNum + 1, m.seqNum)
  }

  /** What a fill forwards counts up from the context's number, whichever number the message has, and
    * reaches the message exactly when the cache closes the gap. */
  lemma FillOfGap(c: Ctx, m: Msg)
    requires NoWrap(c, m) && m.seqNum != 0
    ensures var n, r := Plus(c.seqNum, 1), Fill(c.ring, Plus(c.seqNum, 1), m.seqNum);
      && (FillsGap(c.ring, n, m.seqNum) <==> Closes(c, m))
      && (r == [] <==> Lacks(c.ring, n))
      && c.seqNum + |r| < 0x1_0000_0000 && (forall k :: 0 <= k < |r| ==> r[k].seqNum == c.seqNum + 1 + k)
      && (Closes(c, m) ==> c.seqNum + 1 + |r| == m.seqNum)
  {
    hide FillsGap;
    hide Fill;
    hide HoldsInOrder;
    var n := Plus(c.seqNum, 1);
    NothingToFill(c.ring, n, m.seqNum);
    if c.seqNum + 1 < m.seqNum {
      FillCountsUp(c.ring, n, m.seqNum);
      FillsGapExactlyWhenCached(c.ring, n, m.seqNum);
    } else if c.ring != [] {
      LateFillCountsUp(c.ring, n, m.seqNum);
    }
  }

  /** With gap filling on the first gap, for any message that makes the check try a fill: what was
    * forwarded from the cache is not ahead of the context exactly when the cache closes the gap or
    * lacks even the next number. Otherwise the context will take some numbers twice. */
  lemma {:induction false} GapKeepsUpExactlyWhen(cfg: Config, c: Ctx, m: Msg)
    requires TriesToFill(cfg, c, m) && NoWrap(c, m)
    ensures var k := CheckSeqNum(cfg, c, m);
      (forall d <- k.out :: d.msg.seqNum <= k.c.seqNum) <==> Closes(c, m) || Lacks(c.ring, Plus(c.seqNum, 1))
  {
    hide CheckSeqNum;
    hide FillsGap;
    hide Fill;
    hide Closes;
    hide Lacks;
    FillTried(cfg, c, m);
    FillOfGap(c, m);
    var k, r := CheckSeqNum(cfg, c, m), Fill(c.ring, Plus(c.seqNum, 1), m.seqNum);
    assert |k.out| == |r| && forall i :: 0 <= i < |r| ==> k.out[i].msg.seqNum == c.seqNum + 1 + i;
    if r != [] {
      assert k.out[0] in k.out;
    }
  }

  /** The messages of the cache that a fill passes on, with the marks they then have. */
  function PassedOn(c: Ctx, m: Msg): seq<Msg> {
    var r := Fill(c.ring, Plus(c.seqNum, 1), m.seqNum);
    if c.setCacheStale then MarkStale(r) else r
  }

  /** A fill that keeps the order: the cache closes the gap, the message is unmarked and makes good
    * for the marked ones at the end of the gap; or all that the fill finds, if anything, is marked. */
  ghost predicate FillsSafely(c: Ctx, m: Msg) {
    var p := Unmarked(PassedOn(c, m));
    && AllMarked(PassedOn(c, m)[p..])
    && if Closes(c, m) then !Marked(m) && m.seqNum == Plus(Plus(c.seqNum, p), Increment(m)) else p == 0
  }

  /** The last message and what it leaves behind. */
  lemma TailLeads(n: SeqNum, m: Msg, closed: bool, c: SeqNum)
    requires closed ==> n < m.seqNum
    ensures var tail := Delivery(if closed then m else m.(status := Stale), Direct);
      Leads(n, false, [tail], if closed then m.seqNum else c) <==>
        if closed then !Marked(m) && m.seqNum == Plus(n, Increment(m)) else n == c
  {
    OneLeads(n, false, Delivery(if closed then m else m.(status := Stale), Direct), if closed then m.seqNum else c);
    hide Leads;
  }

  /** A fill carries the order on exactly when it is such a one. */
  lemma {:induction false} FillLeadsExactlyWhen(cfg: Config, c: Ctx, m: Msg)
    requires TriesToFill(cfg, c, m) && NoWrap(c, m)
    ensures var k := CheckSeqNum(cfg, c, m);
      Leads(c.seqNum, false, k.out + [Delivery(k.m, Direct)], k.c.seqNum) <==> FillsSafely(c, m)
  {
    hide CheckSeqNum;
    hide FillsGap;
    hide Fill;
    hide Closes;
    hide Lacks;
    hide Leads;
    hide AfterFill;
    hide Unmarked;
    hide AllMarked;
    FillTried(cfg, c, m);
    NumberAfterFill(c, m);
    FillOfGap(c, m);
    var r := PassedOn(c, m);
    UnmarkedInside(r);
    CountingLeads(r, c.seqNum, [Delivery(CheckSeqNum(cfg, c, m).m, Direct)], CheckSeqNum(cfg, c, m).c.seqNum);
    TailLeads(c.seqNum + Unmarked(r), m, Closes(c, m), c.seqNum);
  }

  lemma UnmarkedInside(r: seq<Msg>)
    ensures Unmarked(r) <= |r|
  {
  }

  /** Nothing in the cache is marked or about to be, and the message moves on by one. */
  predicate Plain(c: Ctx, m: Msg) {
    && !c.setCacheStale && Increment(m) == 1 && !Marked(m)
    && forall k :: 0 <= k < |c.ring| ==> !Marked(c.ring[k])
  }

  lemma {:induction false} PlainIsUnmarked(r: seq<Msg>)
    requires forall k :: 0 <= k < |r| ==> !Marked(r[k])
    ensures Unmarked(r) == |r|
  {
    if r != [] {
      PlainIsUnmarked(r[1..]);
    }
  }

  lemma {:induction false} FillIsFrom(s: seq<Msg>, begin: SeqNum, end: SeqNum)
    ensures forall x <- Fill(s, begin, end) :: x in s
  {
    if s != [] {
      FillIsFrom(s[1..], begin, end);
      FillIsFrom(s[1..], Plus(begin, 1), end);
      assert forall x <- s[1..] :: x in s;
    }
  }

  /** Where nothing is marked, what is forwarded is in sequence and ends at the context's number
    * exactly when the cache closes the gap or lacks even the next number. */
  lemma {:induction false} GapInSequenceExactlyWhen(cfg: Config, c: Ctx, m: Msg)
    requires TriesToFill(cfg, c, m) && NoWrap(c, m) && Plain(c, m)
    ensures var k := CheckSeqNum(cfg, c, m);
      Leads(c.seqNum, false, k.out + [Delivery(k.m, Direct)], k.c.seqNum) <==>
        Closes(c, m) || Lacks(c.ring, Plus(c.seqNum, 1))
  {
    hide CheckSeqNum;
    hide FillsGap;
    hide Fill;
    hide Closes;
    hide Lacks;
    hide Leads;
    hide Unmarked;
    FillLeadsExactlyWhen(cfg, c, m);
    FillOfGap(c, m);
    FillIsFrom(c.ring, Plus(c.seqNum, 1), m.seqNum);
    var r := PassedOn(c, m);
    forall k | 0 <= k < |r| ensures !Marked(r[k]) {
      assert r[k] in r;
    }
    PlainIsUnmarked(r);
    assert r[|r|..] == [];
  }

  lemma NumberAfterFill(c: Ctx, m: Msg)
    ensures var c' := AfterFill(c, m);
      && c'.seqNum == (if FillsGap(c.ring, Plus(c.seqNum, 1), m.seqNum) then m.seqNum else c.seqNum)
      && c'.sender == c.sender && !c'.doNotForward && (c'.state == c.state || c'.state == WaitingForRecap)
  {
  }

  /** Such a fill, or one that finds nothing, carries the order on. */
  lemma SafeFillLeads(cfg: Config, c: Ctx, m: Msg)
    requires TriesToFill(cfg, c, m) && (Lacks(c.ring, Plus(c.seqNum, 1)) || (NoWrap(c, m) && FillsSafely(c, m)))
    ensures var k := CheckSeqNum(cfg, c, m);
      && Leads(c.seqNum, false, k.out + [Delivery(k.m, Direct)], k.c.seqNum)
      && k.c.sender == c.sender && !k.c.doNotForward
      && k.c.state != NotEstablished && k.c.state != WaitingForRecapAfterFt
  {
    hide CheckSeqNum;
    hide FillsGap;
    hide Fill;
    hide FillsSafely;
    hide Lacks;
    hide Leads;
    hide AfterFill;
    FillTried(cfg, c, m);
    NumberAfterFill(c, m);
    var k, n := CheckSeqNum(cfg, c, m), Plus(c.seqNum, 1);
    if Lacks(c.ring, n) {
      NothingToFill(c.ring, n, m.seqNum);
      assert k.out + [Delivery(k.m, Direct)] == [Delivery(k.m, Direct)];
      OneLeads(c.seqNum, false, Delivery(k.m, Direct), k.c.seqNum);
    } else {
      FillLeadsExactlyWhen(cfg, c, m);
    }
  }

  /** One step of a subscription as far as the order is concerned. */
  ghost predicate Advances(s: nat, c: Ctx, c': Ctx, out: seq<Delivery>) {
    && Leads(c.seqNum, c.state == NotEstablished, out, c'.seqNum)
    && c'.sender in {0, s}
    && c'.state != WaitingForRecapAfterFt
    && (c'.state == NotEstablished ==> c.state == NotEstablished && NothingGood(out))
  }

  predicate Settled(s: nat, c: Ctx) {
    c.sender in {0, s} && c.state != WaitingForRecapAfterFt
  }

  /** The message is checked, and the check tries a fill. */
  predicate Fills(cfg: Config, c: Ctx, m: Msg) {
    !IsImage(m.kind) && !IsControl(m.kind) && !MustWait(cfg, c, m) && ReachesFill(cfg, c, m)
  }

  /** If a fill is tried, it finds nothing or keeps the order. */
  ghost predicate Safe(cfg: Config, c: Ctx, m: Msg) {
    Fills(cfg, c, m) ==> Lacks(c.ring, Plus(c.seqNum, 1)) || (NoWrap(c, m) && FillsSafely(c, m))
  }

  ghost predicate SafeInput(cfg: Config, c: Ctx, i: Input) {
    i.Arrive? && !IsError(i.m.status) && i.m.status != UnknownStatus ==> Safe(cfg, c, i.m)
  }

  lemma UpdateAdvances(cfg: Config, s: nat, c: Ctx, m: Msg)
    requires Settled(s, c) && FromOne(s, Arrive(m)) && !IsImage(m.kind) && Safe(cfg, c, m)
    ensures var (c', out) := UpdateArrived(cfg, c, m); Advances(s, c, c', out)
  {
    hide CheckSeqNum;
    hide FillsSafely;
    if !MustWait(cfg, c, m) && !IsControl(m.kind) {
      if ReachesFill(cfg, c, m) {
        SafeFillLeads(cfg, c, m);
      } else {
        UpdateChecked(cfg, c, m);
        var k := CheckSeqNum(cfg, c, m);
        OneLeads(c.seqNum, c.state == NotEstablished, Delivery(k.m, Direct), k.c.seqNum);
        assert k.out + (if k.c.doNotForward then [] else [Delivery(k.m, Direct)]) ==
          if k.c.doNotForward then [] else [Delivery(k.m, Direct)];
      }
    }
  }

  /** An initial or a recap, of whatever publisher, restarts the sequence at its own number. */
  lemma ImageChecked(cfg: Config, c: Ctx, m: Msg)
    requires m.kind in {Initial, BookInitial, Recap, BookRecap}
    ensures var k := CheckSeqNum(cfg, c, m);
      && k.m == m && k.out == []
      && k.c.seqNum == m.seqNum && k.c.sender == m.sender
      && (k.c.state == OkState || k.c.state == StaleNoRecap)
      && k.c.ring == c.ring && k.c.idx == c.idx
  {
  }

  lemma ImageAdvances(cfg: Config, s: nat, c: Ctx, m: Msg)
    requires Settled(s, c) && FromOne(s, Arrive(m)) && IsImage(m.kind)
    ensures var (c', out) := ImageArrived(cfg, c, m); Advances(s, c, c', out)
  {
    hide CheckSeqNum;
    ImageChecked(cfg, CountedImage(c, m), m);
    var k := CheckSeqNum(cfg, CountedImage(c, m), m);
    var r := if Replays(cfg, m.kind) then Replay(BeforeIndex(k.c), m.seqNum) else [];
    ReplayLeads(BeforeIndex(k.c), m.seqNum);
    var more := Deliveries(r, Replayed);
    assert Leads(m.seqNum, false, more, LastSeqNum(r, m.seqNum));
    var (c', out) := ImageArrived(cfg, c, m);
    assert out == [Delivery(m, Image)] + more;
    assert out[1..] == more && out[0] == Delivery(m, Image);
    assert c'.seqNum == LastSeqNum(r, m.seqNum);
    assert Leads(c.seqNum, c.state == NotEstablished, out, c'.seqNum);
  }

  lemma NothingAdvances(s: nat, c: Ctx, c': Ctx)
    requires Settled(s, c) && c'.seqNum == c.seqNum && c'.sender == c.sender
    requires c'.state == c.state || (c'.state != NotEstablished && c'.state != WaitingForRecapAfterFt)
    ensures Advances(s, c, c', [])
  {
  }

  lemma StaleAdvances(cfg: Config, s: nat, c: Ctx, m: Msg)
    requires Settled(s, c) && Safe(cfg, c, m)
    ensures var c1 := MadePossiblyStale(c);
      && Settled(s, c1) && Safe(cfg, c1, m)
      && forall c', out :: Advances(s, c1, c', out) ==> Advances(s, c, c', out)
  {
    hide HoldsInOrder;
    hide Fill;
    hide Unmarked;
    hide AllMarked;
    hide Leads;
  }

  lemma ArrivedAdvances(cfg: Config, s: nat, c: Ctx, m: Msg)
    requires Settled(s, c) && FromOne(s, Arrive(m)) && Safe(cfg, c, m)
    ensures var (c', out) := if IsImage(m.kind) then ImageArrived(cfg, c, m) else UpdateArrived(cfg, c, m);
      Advances(s, c, c', out)
  {
    hide *;
    if IsImage(m.kind) {
      ImageAdvances(cfg, s, c, m);
    } else {
      UpdateAdvances(cfg, s, c, m);
    }
  }

  lemma ProcessedAdvances(cfg: Config, s: nat, c: Ctx, m: Msg)
    requires Settled(s, c) && FromOne(s, Arrive(m)) && SafeInput(cfg, c, Arrive(m))
    ensures var (c', out) := Processed(cfg, c, m); Advances(s, c, c', out)
  {
    hide ImageArrived;
    hide UpdateArrived;
    hide Safe;
    hide Advances;
    if IsError(m.status) || m.status == UnknownStatus {
      NothingAdvances(s, c, Processed(cfg, c, m).0);
    } else {
      var c1 := if m.status == PossiblyStale && m.kind == MiscKind then MadePossiblyStale(c) else c;
      StaleAdvances(cfg, s, c, m);
      ArrivedAdvances(cfg, s, c1, m);
      assert Processed(cfg, c, m) == if IsImage(m.kind) then ImageArrived(cfg, c1, m) else UpdateArrived(cfg, c1, m);
    }
  }

  lemma HandledAdvances(cfg: Config, s: nat, c: Ctx, i: Input)
    requires Settled(s, c) && FromOne(s, i) && SafeInput(cfg, c, i)
    ensures var (c', out) := Handled(cfg, c, i); Advances(s, c, c', out)
  {
    if i.Arrive? {
      ProcessedAdvances(cfg, s, c, i.m);
    } else {
      NothingAdvances(s, c, Handled(cfg, c, i).0);
    }
  }

  /** Every fill that is tried in the run is a safe one. */
  ghost predicate SafeRun(cfg: Config, inputs: seq<Input>) {
    inputs == [] || (
      var p := inputs[..|inputs| - 1];
      SafeRun(cfg, p) && SafeInput(cfg, After(cfg, p).0, inputs[|inputs| - 1]))
  }

  /** The on-initial scheme fills no gaps. */
  lemma {:induction false} OnInitialIsSafe(cfg: Config, inputs: seq<Input>)
    requires cfg.onInitial
    ensures SafeRun(cfg, inputs)
  {
    if inputs != [] {
      OnInitialIsSafe(cfg, inputs[..|inputs| - 1]);
    }
  }

  lemma {:induction false} RunKeepsOrder(cfg: Config, s: nat, inputs: seq<Input>)
    requires AllFromOne(s, inputs) && SafeRun(cfg, inputs)
    ensures var (c, out) := After(cfg, inputs); OrderInv(s, c, out)
  {
    if inputs != [] {
      var n := |inputs| - 1;
      assert AllFromOne(s, inputs[..n]);
      RunKeepsOrder(cfg, s, inputs[..n]);
      assert FromOne(s, inputs[n]);
      var (c, out) := After(cfg, inputs[..n]);
      HandledAdvances(cfg, s, c, inputs[n]);
      var (c', out') := Handled(cfg, c, inputs[n]);
      ExtendAll(out, c.seqNum, c.state == NotEstablished, out', c'.seqNum);
    }
  }

  /** In every run with one publisher and the on-initial cache scheme, the good deliveries come in
    * sequence: each is an image or has its predecessor's number plus its own conflate count (plus
    * 1 when replayed), and the context remembers the number of the last. */
  lemma {:induction false} DeliveriesInSequence(cfg: Config, s: nat, inputs: seq<Input>)
    requires cfg.onInitial && AllFromOne(s, inputs)
    ensures var (c, out) := After(cfg, inputs); InOrder(out)
    ensures var (c, out) := After(cfg, inputs);
      forall i: nat :: i < |out| && Good(out[i]) && NoneBetween(out, i, |out|) ==> c.seqNum == out[i].msg.seqNum
  {
    OnInitialIsSafe(cfg, inputs);
    RunKeepsOrder(cfg, s, inputs);
  }

  /** The same under the on-gap scheme, for runs in which each fill that is tried keeps the order: also
    * what is forwarded from the cache is in sequence. */
  lemma {:induction false} FilledDeliveriesInSequence(cfg: Config, s: nat, inputs: seq<Input>)
    requires AllFromOne(s, inputs) && SafeRun(cfg, inputs)
    ensures var (c, out) := After(cfg, inputs); InOrder(out)
    ensures var (c, out) := After(cfg, inputs);
      forall i: nat :: i < |out| && Good(out[i]) && NoneBetween(out, i, |out|) ==> c.seqNum == out[i].msg.seqNum
  {
    RunKeepsOrder(cfg, s, inputs);
  }

  // ---------- and only then ----------

  /** A good delivery with no good one after it. */
  ghost predicate LastGood(out: seq<Delivery>, i: nat) {
    i < |out| && Good(out[i]) && NoneBetween(out, i, |out|)
  }

  lemma {:induction false} SomeLastGood(out: seq<Delivery>) returns (i: nat)
    requires !NothingGood(out)
    ensures LastGood(out, i)
  {
    var n := |out| - 1;
    if Good(out[n]) {
      i := n;
    } else {
      var k: nat :| k < |out| && Good(out[k]);
      assert out[..n][k] == out[k];
      i := SomeLastGood(out[..n]);
      assert forall j :: 0 <= j < n ==> out[..n][j] == out[j];
    }
  }

  lemma InOrderPrefix(out: seq<Delivery>, more: seq<Delivery>)
    requires InOrder(out + more)
    ensures InOrder(out)
  {
    var all := out + more;
    forall i: nat, j: nat | i < j < |out| && Good(out[i]) && Good(out[j]) && NoneBetween(out, i, j)
      ensures Follows(out[i].msg.seqNum, out[j])
    {
      assert all[i] == out[i] && all[j] == out[j];
      assert forall k :: i < k < j ==> all[k] == out[k];
      assert NoneBetween(all, i, j);
    }
  }

  /** One delivery more after some good one. */
  lemma OneMoreOrdered(out: seq<Delivery>, n: SeqNum, d: Delivery)
    requires Ordered(out, n) && !NothingGood(out) && InOrder(out + [d])
    ensures Good(d) ==> Follows(n, d)
    ensures Ordered(out + [d], if Good(d) then d.msg.seqNum else n) && !NothingGood(out + [d])
  {
    var i := SomeLastGood(out);
    var all := out + [d];
    assert all[i] == out[i] && all[|out|] == d;
    if Good(d) {
      assert forall k :: i < k < |out| ==> all[k] == out[k];
      assert NoneBetween(all, i, |out|);
    }
    Extend(out, n, d);
  }

  /** What keeps a list in order that holds a good delivery carries it on. */
  lemma {:induction false} OrderedLeads(out: seq<Delivery>, n: SeqNum, more: seq<Delivery>, last: SeqNum)
    requires Ordered(out, n) && !NothingGood(out) && Ordered(out + more, last)
    ensures Leads(n, false, more, last)
    decreases |more|
  {
    if more == [] {
      assert out + more == out;
      var i := SomeLastGood(out);
    } else {
      assert out + more == (out + [more[0]]) + more[1..];
      InOrderPrefix(out + [more[0]], more[1..]);
      OneMoreOrdered(out, n, more[0]);
      OrderedLeads(out + [more[0]], if Good(more[0]) then more[0].msg.seqNum else n, more[1..], last);
    }
  }

  /** A fill is tried only after an image has been delivered. */
  predicate SomeImage(out: seq<Delivery>) {
    exists k :: 0 <= k < |out| && out[k].how == Image
  }

  lemma CheckUpdateTries(cfg: Config, seqNum: SeqNum, state: DqState, c: Ctx, m: Msg)
    ensures CheckUpdate(cfg, seqNum, state, c, m).c.tryToFillGap ==> c.tryToFillGap
  {
    hide GapFilled;
  }

  lemma HandledTries(cfg: Config, c: Ctx, i: Input)
    ensures var (c', out) := Handled(cfg, c, i); c'.tryToFillGap ==> c.tryToFillGap || SomeImage(out)
  {
    if i.Arrive? {
      var c1 := if i.m.status == PossiblyStale && i.m.kind == MiscKind then MadePossiblyStale(c) else c;
      if IsImage(i.m.kind) {
        ImageIsDelivered(cfg, c1, i.m);
        hide ImageArrived;
        hide UpdateArrived;
      } else {
        UpdateTries(cfg, c1, i.m);
        hide ImageArrived;
        hide UpdateArrived;
      }
    }
  }

  lemma ImageIsDelivered(cfg: Config, c: Ctx, m: Msg)
    ensures SomeImage(ImageArrived(cfg, c, m).1)
  {
    hide CheckSeqNum;
    var k, out := CheckSeqNum(cfg, CountedImage(c, m), m), ImageArrived(cfg, c, m).1;
    assert out[|k.out|] == Delivery(k.m, Image);
  }

  lemma UpdateTries(cfg: Config, c: Ctx, m: Msg)
    requires !IsImage(m.kind)
    ensures UpdateArrived(cfg, c, m).0.tryToFillGap ==> c.tryToFillGap
  {
    hide CheckUpdate;
    var c0 := c.(doNotForward := false);
    var c1 := if Takeover(c, m)
      then c0.(doNotForward := true, seqNum := m.seqNum, state := WaitingForRecapAfterFt)
      else c0;
    CheckUpdateTries(cfg, c.seqNum, c.state, c1, m);
  }

  lemma {:induction false} TriesAfterImage(cfg: Config, inputs: seq<Input>)
    ensures var (c, out) := After(cfg, inputs); c.tryToFillGap ==> SomeImage(out)
  {
    hide Handled;
    if inputs != [] {
      var p, i := inputs[..|inputs| - 1], inputs[|inputs| - 1];
      TriesAfterImage(cfg, p);
      var (c, out) := After(cfg, p);
      var (c', out') := Handled(cfg, c, i);
      HandledTries(cfg, c, i);
      var all := out + out';
      if c'.tryToFillGap {
        if c.tryToFillGap {
          var k :| 0 <= k < |out| && out[k].how == Image;
          assert all[k] == out[k];
        } else {
          var k :| 0 <= k < |out'| && out'[k].how == Image;
          assert all[|out| + k] == out'[k];
        }
      }
    }
  }

  /** What an input that tries a fill does. */
  lemma FillHandled(cfg: Config, s: nat, c: Ctx, m: Msg)
    requires Settled(s, c) && FromOne(s, Arrive(m)) && Fills(cfg, c, m)
    requires !IsError(m.status) && m.status != UnknownStatus
    ensures var c1 := if m.status == PossiblyStale && m.kind == MiscKind then MadePossiblyStale(c) else c;
      var k := CheckSeqNum(cfg, c1, m);
      && TriesToFill(cfg, c1, m)
      && c1.ring == c.ring && c1.seqNum == c.seqNum && c1.setCacheStale == c.setCacheStale
      && Handled(cfg, c, Arrive(m)) == (k.c, k.out + [Delivery(k.m, Direct)])
  {
    hide ImageArrived;
    hide CheckSeqNum;
    hide Fill;
    hide FillsGap;
    hide AfterFill;
    var c1 := if m.status == PossiblyStale && m.kind == MiscKind then MadePossiblyStale(c) else c;
    assert TriesToFill(cfg, c1, m);
    FillTried(cfg, c1, m);
    NumberAfterFill(c1, m);
  }

  /** A fill that does not keep the order does not carry it on. */
  lemma UnsafeFillBreaks(cfg: Config, s: nat, c: Ctx, i: Input)
    requires Settled(s, c) && FromOne(s, i) && !SafeInput(cfg, c, i) && NoWrap(c, i.m)
    ensures var (c', out) := Handled(cfg, c, i); !Leads(c.seqNum, false, out, c'.seqNum)
    ensures c.tryToFillGap
  {
    hide Handled;
    hide CheckSeqNum;
    hide Leads;
    hide Closes;
    hide Fill;
    hide Unmarked;
    hide AllMarked;
    FillHandled(cfg, s, c, i.m);
    var c1 := if i.m.status == PossiblyStale && i.m.kind == MiscKind then MadePossiblyStale(c) else c;
    SameFill(c, c1, i.m);
    FillLeadsExactlyWhen(cfg, c1, i.m);
  }

  lemma SameFill(c: Ctx, c1: Ctx, m: Msg)
    requires c1.ring == c.ring && c1.seqNum == c.seqNum && c1.setCacheStale == c.setCacheStale
    ensures FillsSafely(c1, m) <==> FillsSafely(c, m)
    ensures NoWrap(c1, m) <==> NoWrap(c, m)
  {
  }

  /** In order throughout, the context always having the number of the last good delivery. */
  ghost predicate AlwaysInSequence(cfg: Config, inputs: seq<Input>) {
    && Ordered(After(cfg, inputs).1, After(cfg, inputs).0.seqNum)
    && (inputs == [] || AlwaysInSequence(cfg, inputs[..|inputs| - 1]))
  }

  /** No number wraps round at 32 bits in a fill. */
  predicate NoWraps(cfg: Config, inputs: seq<Input>) {
    inputs == [] || (
      var p, i := inputs[..|inputs| - 1], inputs[|inputs| - 1];
      && NoWraps(cfg, p)
      && (i.Arrive? && Fills(cfg, After(cfg, p).0, i.m) ==> NoWrap(After(cfg, p).0, i.m)))
  }

  /** In every run with one publisher and numbered messages, under any cache scheme: the deliveries,
    * those from the cache included, are in sequence throughout, and the context keeps up with them,
    * exactly when each fill that is tried finds nothing or keeps the order. */
  lemma {:induction false} InSequenceExactlyWhen(cfg: Config, s: nat, inputs: seq<Input>)
    requires AllFromOne(s, inputs) && NoWraps(cfg, inputs)
    ensures AlwaysInSequence(cfg, inputs) <==> SafeRun(cfg, inputs)
  {
    hide Handled;
    if inputs != [] {
      var p, i := inputs[..|inputs| - 1], inputs[|inputs| - 1];
      assert AllFromOne(s, p);
      InSequenceExactlyWhen(cfg, s, p);
      if SafeRun(cfg, inputs) {
        RunKeepsOrder(cfg, s, inputs);
      } else if SafeRun(cfg, p) {
        BrokenStep(cfg, s, p, i);
        assert p + [i] == inputs;
      }
    }
  }

  lemma BrokenStep(cfg: Config, s: nat, p: seq<Input>, i: Input)
    requires AllFromOne(s, p) && FromOne(s, i) && SafeRun(cfg, p) && !SafeInput(cfg, After(cfg, p).0, i)
    requires NoWrap(After(cfg, p).0, i.m)
    ensures !Ordered(After(cfg, p + [i]).1, After(cfg, p + [i]).0.seqNum)
  {
    hide Handled;
    hide SafeInput;
    hide NoWrap;
    hide Ordered;
    hide Leads;
    RunKeepsOrder(cfg, s, p);
    TriesAfterImage(cfg, p);
    var (c, out) := After(cfg, p);
    UnsafeFillBreaks(cfg, s, c, i);
    var k :| 0 <= k < |out| && out[k].how == Image;
    assert Good(out[k]);
    var (c', out') := Handled(cfg, c, i);
    assert (p + [i])[..|p|] == p;
    if Ordered(out + out', c'.seqNum) {
      OrderedLeads(out, c.seqNum, out', c'.seqNum);
    }
  }

  // ---------- takeover ----------

  /** An initial or a recap that gets as far as the sequence-number check. */
  predicate Establishes(i: Input) {
    && i.Arrive?
    && (IsInitial(i.m.kind) || IsRecap(i.m.kind))
    && !IsError(i.m.status) && i.m.status != UnknownStatus
  }

  /** Nothing but images comes from a publisher other than `s`. */
  predicate OnlyFrom(s: nat, out: seq<Delivery>) {
    forall k :: 0 <= k < |out| ==> out[k].how == Image || out[k].msg.sender == 0 || out[k].msg.sender == s
  }

  lemma CheckUpdateHoldsBack(cfg: Config, seqNum: SeqNum, state: DqState, c: Ctx, m: Msg)
    requires cfg.onInitial
    ensures var k := CheckUpdate(cfg, seqNum, state, c, m);
      k.c.sender == c.sender && k.out == [] && k.m.sender == m.sender && (c.doNotForward ==> k.c.doNotForward)
  {
  }

  lemma CheckHoldsTakeoverBack(cfg: Config, c: Ctx, m: Msg)
    requires cfg.onInitial && cfg.waitForRecap && !(IsInitial(m.kind) || IsRecap(m.kind))
    ensures var k := CheckSeqNum(cfg, c, m);
      k.c.sender == c.sender && k.out == [] && k.m.sender == m.sender && (Takeover(c, m) ==> k.c.doNotForward)
  {
    var c0 := c.(doNotForward := false);
    var c1 := if Takeover(c, m)
      then c0.(doNotForward := true, seqNum := m.seqNum, state := WaitingForRecapAfterFt)
      else c0;
    CheckUpdateHoldsBack(cfg, c.seqNum, c.state, c1, m);
  }

  lemma UpdateHoldsTakeoverBack(cfg: Config, c: Ctx, m: Msg)
    requires cfg.onInitial && cfg.waitForRecap && c.sender != 0 && !IsImage(m.kind)
    ensures var (c', out) := UpdateArrived(cfg, c, m); c'.sender == c.sender && OnlyFrom(c.sender, out)
  {
    CheckHoldsTakeoverBack(cfg, c, m);
  }

  lemma SnapshotHoldsTakeoverBack(cfg: Config, c: Ctx, m: Msg)
    requires cfg.onInitial && cfg.waitForRecap && !(IsInitial(m.kind) || IsRecap(m.kind))
    ensures var (c', out) := ImageArrived(cfg, c, m); c'.sender == c.sender && OnlyFrom(c.sender, out)
  {
    CheckHoldsTakeoverBack(cfg, CountedImage(c, m), m);
  }

  lemma HandledHoldsTakeoverBack(cfg: Config, c: Ctx, i: Input)
    requires cfg.onInitial && cfg.waitForRecap && c.sender != 0 && !Establishes(i)
    ensures var (c', out) := Handled(cfg, c, i); c'.sender == c.sender && OnlyFrom(c.sender, out)
  {
    if i.Arrive? && !IsError(i.m.status) && i.m.status != UnknownStatus {
      var c1 := if i.m.status == PossiblyStale && i.m.kind == MiscKind then MadePossiblyStale(c) else c;
      if IsImage(i.m.kind) {
        SnapshotHoldsTakeoverBack(cfg, c1, i.m);
      } else {
        UpdateHoldsTakeoverBack(cfg, c1, i.m);
      }
    }
  }

  /** Waiting for a recap after a takeover: from any context that knows its publisher, whatever
    * its quality state, and for any run in which no initial or recap is processed, the publisher
    * stays and nothing of another one is forwarded. */
  lemma {:induction false} TakeoverWaitsForRecap(cfg: Config, c: Ctx, inputs: seq<Input>)
    requires cfg.onInitial && cfg.waitForRecap && c.sender != 0
    requires forall k :: 0 <= k < |inputs| ==> !Establishes(inputs[k])
    ensures var (c', out) := From(cfg, c, inputs); c'.sender == c.sender && OnlyFrom(c.sender, out)
  {
    if inputs != [] {
      var n := |inputs| - 1;
      TakeoverWaitsForRecap(cfg, c, inputs[..n]);
      HandledHoldsTakeoverBack(cfg, From(cfg, c, inputs[..n]).0, inputs[n]);
    }
  }

  // ---------- a gap that stays open ----------

  lemma FromNothing(cfg: Config, c: Ctx)
    ensures From(cfg, c, []) == (c, [])
  {
  }

  lemma FromLast(cfg: Config, c: Ctx, p: seq<Input>, i: Input, c1: Ctx, out1: seq<Delivery>, c2: Ctx,
                 out2: seq<Delivery>)
    requires From(cfg, c, p) == (c1, out1) && Handled(cfg, c1, i) == (c2, out2)
    ensures From(cfg, c, p + [i]) == (c2, out1 + out2)
  {
    assert (p + [i])[..|p|] == p;
  }

  predicate IsUpdate(k: Kind) {
    k in {Update, Quote, Trade, SecStatus, BookUpdate, MiscKind, OtherKind}
  }

  /** A status that lets the message through to the processing of its kind. */
  predicate Usable(s: Status) {
    s in {Ok, LineDown, Misc, Stale, PlatformStatus, NotEntitled, PossiblyStale, TopicChange, Duplicate}
  }

  /** A report that the data of the subscription may be stale. */
  predicate Doubts(m: Msg) {
    m.kind == MiscKind && m.status == PossiblyStale
  }

  /** An update that need not wait is checked and, unless the check objects, forwarded. */
  lemma UpdatePasses(cfg: Config, c: Ctx, m: Msg)
    requires IsUpdate(m.kind) && Usable(m.status) && !Doubts(m) && !MustWait(cfg, c, m)
    ensures var k := CheckSeqNum(cfg, c, m);
      Handled(cfg, c, Arrive(m)) == (k.c, k.out + if k.c.doNotForward then [] else [Delivery(k.m, Direct)])
  {
    hide CheckSeqNum;
    hide ImageArrived;
  }

  const GAP_CONFIG := Config(false, false, false, false, 3)

  function Sent(k: Kind, n: SeqNum): Msg {
    Msg(k, n, 7, 1, Ok, true)
  }

  /** A run in which that happens: number 2 is forwarded from the cache towards a gap up to 4 that
    * stays open, and again when it arrives once more. */
  const OPEN_GAP_RUN := [ExpectInitial(true)] + [Arrive(Sent(Update, 2))] + [Arrive(Sent(Initial, 1))] +
    [Arrive(Sent(Update, 4))] + [Arrive(Sent(Update, 2))]

  const OPEN_GAP_OUT := [Delivery(Sent(Initial, 1), Image)] +
    [Delivery(Sent(Update, 2), Filled), Delivery(Sent(Update, 4).(status := Stale), Direct)] +
    [Delivery(Sent(Update, 2), Direct)]

  const WAITING_FOR_IMAGE := FRESH.(expectingInitial := true)
  const TWO_CACHED := WAITING_FOR_IMAGE.(ring := [Sent(Update, 2)], idx := 1)
  const IMAGE_SEEN := TWO_CACHED.(
    seqNum := 1, state := OkState, sender := 7, tryToFillGap := true, initialArrived := true, imageCount := 1)
  const GAP_OPEN := IMAGE_SEEN.(ring := [], idx := 0, tryToFillGap := false, state := WaitingForRecap)

  lemma TwoArrives()
    ensures Handled(GAP_CONFIG, WAITING_FOR_IMAGE, Arrive(Sent(Update, 2))) == (TWO_CACHED, [])
  {
    assert [] + [Sent(Update, 2)] == [Sent(Update, 2)];
  }

  lemma ImageArrives()
    ensures Handled(GAP_CONFIG, TWO_CACHED, Arrive(Sent(Initial, 1))) == (IMAGE_SEEN, IMAGE_OUT)
  {
    assert [] + [Delivery(Sent(Initial, 1), Image)] + [] == [Delivery(Sent(Initial, 1), Image)];
  }

  lemma FourChecked()
    ensures CheckSeqNum(GAP_CONFIG, IMAGE_SEEN, Sent(Update, 4)) ==
      Checked(GAP_OPEN, Sent(Update, 4).(status := Stale), [Delivery(Sent(Update, 2), Filled)])
  {
    var two := Sent(Update, 2);
    assert [two][1..] == [];
    assert Fill([two], 2, 4) == [two] + Fill([], 3, 4) && !FillsGap([two], 2, 4);
    assert Deliveries([two], Filled) == [Delivery(two, Filled)];
    FillTried(GAP_CONFIG, IMAGE_SEEN, Sent(Update, 4));
    assert AfterFill(IMAGE_SEEN, Sent(Update, 4)) == GAP_OPEN;
    hide CheckSeqNum;
  }

  lemma FourArrives()
    ensures Handled(GAP_CONFIG, IMAGE_SEEN, Arrive(Sent(Update, 4))) ==
      (GAP_OPEN, [Delivery(Sent(Update, 2), Filled), Delivery(Sent(Update, 4).(status := Stale), Direct)])
  {
    assert !MustWait(GAP_CONFIG, IMAGE_SEEN, Sent(Update, 4)) && !GAP_OPEN.doNotForward;
    assert [Delivery(Sent(Update, 2), Filled)] + [Delivery(Sent(Update, 4).(status := Stale), Direct)] ==
      [Delivery(Sent(Update, 2), Filled), Delivery(Sent(Update, 4).(status := Stale), Direct)];
    hide *;
    FourChecked();
    UpdatePasses(GAP_CONFIG, IMAGE_SEEN, Sent(Update, 4));
  }

  const RUN_1 := [ExpectInitial(true)]
  const RUN_2 := RUN_1 + [Arrive(Sent(Update, 2))]
  const RUN_3 := RUN_2 + [Arrive(Sent(Initial, 1))]
  const RUN_4 := RUN_3 + [Arrive(Sent(Update, 4))]

  const IMAGE_OUT := [Delivery(Sent(Initial, 1), Image)]
  const FOUR_OUT := [Delivery(Sent(Update, 2), Filled), Delivery(Sent(Update, 4).(status := Stale), Direct)]

  lemma FromQuiet(cfg: Config, c: Ctx, p: seq<Input>, i: Input, c1: Ctx, c2: Ctx, out: seq<Delivery>)
    requires From(cfg, c, p) == (c1, []) && Handled(cfg, c1, i) == (c2, out)
    ensures From(cfg, c, p + [i]) == (c2, out)
  {
    FromLast(cfg, c, p, i, c1, [], c2, out);
    assert [] + out == out;
  }

  /** The run up to the image. */
  lemma UpToImage()
    ensures From(GAP_CONFIG, FRESH, RUN_3) == (IMAGE_SEEN, IMAGE_OUT)
  {
    assert Handled(GAP_CONFIG, FRESH, ExpectInitial(true)) == (WAITING_FOR_IMAGE, []);
    hide Handled;
    hide From;
    TwoArrives();
    ImageArrives();
    FromNothing(GAP_CONFIG, FRESH);
    FromQuiet(GAP_CONFIG, FRESH, [], ExpectInitial(true), FRESH, WAITING_FOR_IMAGE, []);
    assert [] + RUN_1 == RUN_1;
    FromQuiet(GAP_CONFIG, FRESH, RUN_1, Arrive(Sent(Update, 2)), WAITING_FOR_IMAGE, TWO_CACHED, []);
    FromQuiet(GAP_CONFIG, FRESH, RUN_2, Arrive(Sent(Initial, 1)), TWO_CACHED, IMAGE_SEEN, IMAGE_OUT);
  }

  /** The run up to the message that shows the gap. */
  lemma UpToFour()
    ensures From(GAP_CONFIG, FRESH, RUN_4) == (GAP_OPEN, IMAGE_OUT + FOUR_OUT)
  {
    hide Handled;
    hide From;
    UpToImage();
    FourArrives();
    FromLast(GAP_CONFIG, FRESH, RUN_3, Arrive(Sent(Update, 4)), IMAGE_SEEN, IMAGE_OUT, GAP_OPEN, FOUR_OUT);
  }

  lemma TwoArrivesAgain()
    ensures Handled(GAP_CONFIG, GAP_OPEN, Arrive(Sent(Update, 2))).1 == [Delivery(Sent(Update, 2), Direct)]
  {
  }

  lemma {:induction false} OpenGapRepeats()
    ensures After(GAP_CONFIG, OPEN_GAP_RUN).1 == OPEN_GAP_OUT && !InOrder(OPEN_GAP_OUT)
  {
    hide Handled;
    hide From;
    UpToFour();
    TwoArrivesAgain();
    var c5 := Handled(GAP_CONFIG, GAP_OPEN, Arrive(Sent(Update, 2))).0;
    FromLast(GAP_CONFIG, FRESH, RUN_4, Arrive(Sent(Update, 2)), GAP_OPEN, IMAGE_OUT + FOUR_OUT, c5,
      [Delivery(Sent(Update, 2), Direct)]);
    assert !Follows(OPEN_GAP_OUT[1].msg.seqNum, OPEN_GAP_OUT[3]);
    assert NoneBetween(OPEN_GAP_OUT, 1, 3);
  }

  /** A late update shows no gap, and still makes the check try a fill: at number 4 the update 3 has 5
    * forwarded from the cache, the context stays at 4, and 5 is forwarded again when it arrives. */
  lemma {:induction false} LateUpdateRepeats()
    ensures var c := IMAGE_SEEN.(seqNum := 4, ring := [Sent(Update, 5)]);
      var k := CheckSeqNum(GAP_CONFIG, c, Sent(Update, 3));
      var k' := CheckSeqNum(GAP_CONFIG, k.c, Sent(Update, 5));
      && TriesToFill(GAP_CONFIG, c, Sent(Update, 3)) && !Closes(c, Sent(Update, 3)) && !Lacks(c.ring, 5)
      && k.out == [Delivery(Sent(Update, 5), Filled)] && k.c.seqNum == 4 && k.c.state == WaitingForRecap
      && k'.m == Sent(Update, 5) && k'.c.seqNum == 5 && !k'.c.doNotForward
  {
    var c := IMAGE_SEEN.(seqNum := 4, ring := [Sent(Update, 5)]);
    assert c.ring[0].seqNum == 5 && c.ring[1..] == [];
    FillTried(GAP_CONFIG, c, Sent(Update, 3));
    assert Fill(c.ring, 5, 3) == [Sent(Update, 5)] + Fill([], 6, 3) && !FillsGap(c.ring, 5, 3);
    assert Deliveries([Sent(Update, 5)], Filled) == [Delivery(Sent(Update, 5), Filled)];
  }

  /** The next number with a conflate count of 2 is not the one expected: the gap is empty, yet the
    * cached message with that number is forwarded and the context stays behind it. */
  lemma {:induction false} ConflatedUpdateRepeats()
    ensures var c, m := IMAGE_SEEN.(seqNum := 5, ring := [Sent(Update, 6)]), Sent(Update, 6).(conflate := 2);
      var k := CheckSeqNum(GAP_CONFIG, c, m);
      && TriesToFill(GAP_CONFIG, c, m) && !Closes(c, m) && HoldsInOrder(c.ring, 6, 6)
      && k.out == [Delivery(Sent(Update, 6), Filled)] && k.c.seqNum == 5
  {
    var c, m := IMAGE_SEEN.(seqNum := 5, ring := [Sent(Update, 6)]), Sent(Update, 6).(conflate := 2);
    assert Picks(c.ring, 6, 6, []);
    assert c.ring[0].seqNum == 6 && c.ring[1..] == [];
    FillTried(GAP_CONFIG, c, m);
    assert Fill(c.ring, 6, 6) == [Sent(Update, 6)] + Fill([], 7, 6) && !FillsGap(c.ring, 6, 6);
    assert Deliveries([Sent(Update, 6)], Filled) == [Delivery(Sent(Update, 6), Filled)];
  }

  // ---------- nothing in sequence is lost ----------

  /** No other publisher is behind the message, as far as it and the context tell. */
  predicate SamePublisher(c: Ctx, m: Msg) {
    m.sender == 0 || c.sender == 0 || m.sender == c.sender
  }

  /** `m` is the update that comes next for the context. */
  predicate Expected(c: Ctx, n: SeqNum, m: Msg) {
    && IsUpdate(m.kind) && m.status == Ok && SamePublisher(c, m)
    && m.seqNum == Plus(n, Increment(m))
  }

  predicate InSequence(c: Ctx, n: SeqNum, us: seq<Msg>) {
    us == [] || (
      var p := us[..|us| - 1];
      InSequence(c, n, p) && Expected(c, LastSeqNum(p, n), us[|us| - 1]))
  }

  function Arrivals(us: seq<Msg>): (r: seq<Input>)
    ensures |r| == |us| && forall i :: 0 <= i < |us| ==> r[i] == Arrive(us[i])
  {
    seq(|us|, i requires 0 <= i < |us| => Arrive(us[i]))
  }

  /** A run that one more message ends. */
  lemma FromNext(cfg: Config, c: Ctx, p: seq<Msg>, m: Msg, c1: Ctx, out1: seq<Delivery>, c2: Ctx, out2: seq<Delivery>)
    requires From(cfg, c, Arrivals(p)) == (c1, out1) && Handled(cfg, c1, Arrive(m)) == (c2, out2)
    ensures From(cfg, c, Arrivals(p + [m])) == (c2, out1 + out2)
  {
    FromLast(cfg, c, Arrivals(p), Arrive(m), c1, out1, c2, out2);
    assert Arrivals(p + [m]) == Arrivals(p) + [Arrive(m)];
  }

  /** The first image is still to come, or a recap is, and what comes before it is cached. */
  predicate Holding(cfg: Config, c: Ctx) {
    || (c.expectingInitial && !c.initialArrived)
    || (c.state == WaitingForRecap && cfg.preRecapCache)
  }

  lemma ExpectedIsAccepted(cfg: Config, c: Ctx, m: Msg)
    requires Expected(c, c.seqNum, m)
    ensures var k := CheckSeqNum(cfg, c, m);
      && k.out == [] && k.m == m && !k.c.doNotForward
      && k.c.seqNum == m.seqNum && k.c.sender == c.sender && k.c.state == OkState
      && k.c.expectingInitial == c.expectingInitial && k.c.initialArrived == c.initialArrived
  {
  }

  lemma ExpectedIsDelivered(cfg: Config, c: Ctx, m: Msg)
    requires !Holding(cfg, c) && Expected(c, c.seqNum, m)
    ensures var (c', out) := Handled(cfg, c, Arrive(m));
      && out == [Delivery(m, Direct)]
      && c'.seqNum == m.seqNum && c'.sender == c.sender && c'.state == OkState && !Holding(cfg, c')
  {
    hide CheckSeqNum;
    hide Handled;
    ExpectedIsAccepted(cfg, c, m);
    UpdatePasses(cfg, c, m);
  }

  /** Whatever its quality state, a subscription that is not holding updates back forwards every one of
    * an unbroken sequence, unmarked, once and in order, under every configuration. */
  lemma {:induction false} SequenceIsDelivered(cfg: Config, c: Ctx, us: seq<Msg>)
    requires !Holding(cfg, c) && InSequence(c, c.seqNum, us)
    ensures var (c', out) := From(cfg, c, Arrivals(us));
      && out == Deliveries(us, Direct)
      && c'.seqNum == LastSeqNum(us, c.seqNum) && c'.sender == c.sender && !Holding(cfg, c')
      && c'.state == if us == [] then c.state else OkState
  {
    hide Handled;
    hide Holding;
    FromNothing(cfg, c);
    hide From;
    assert us == [] ==> Arrivals(us) == [] && Deliveries(us, Direct) == [];
    if us != [] {
      var p, m := us[..|us| - 1], us[|us| - 1];
      SequenceIsDelivered(cfg, c, p);
      var (c1, out1) := From(cfg, c, Arrivals(p));
      ExpectedIsDelivered(cfg, c1, m);
      FromNext(cfg, c, p, m, c1, out1, Handled(cfg, c1, Arrive(m)).0, [Delivery(m, Direct)]);
      assert p + [m] == us;
      assert Deliveries(us, Direct) == Deliveries(p, Direct) + [Delivery(m, Direct)];
    }
  }

  // ---------- updates that wait for an image ----------

  /** Messages that can wait for an image. */
  predicate AllHeld(us: seq<Msg>) {
    forall i :: 0 <= i < |us| ==> CanWait(us[i].kind) && Usable(us[i].status)
  }

  predicate CanWait(k: Kind) {
    k in {Update, Quote, Trade, SecStatus, BookUpdate, OtherKind, Refresh, NotPermissionedKind, NotFoundKind}
  }

  /** The image that ends the wait: under the on-initial scheme an initial, or a recap with the cache
    * for it. */
  predicate EndsWait(cfg: Config, image: Msg) {
    && cfg.onInitial && Usable(image.status)
    && (image.kind in {Initial, BookInitial} || (cfg.preRecapCache && image.kind in {Recap, BookRecap}))
  }

  /** Updates numbered `a`, `a` + 1, ... */
  predicate Numbered(us: seq<Msg>, a: SeqNum) {
    AllHeld(us) && forall i :: 0 <= i < |us| ==> us[i].seqNum == a + i
  }

  lemma NumberedFrom(us: seq<Msg>, a: SeqNum, k: nat)
    requires k <= |us| && Numbered(us, a) && a + k < 0x1_0000_0000
    ensures Numbered(us[k..], a + k)
  {
    var rest := us[k..];
    forall i | 0 <= i < |rest|
      ensures CanWait(rest[i].kind) && Usable(rest[i].status)
      ensures rest[i].seqNum == a + k + i
    {
      assert rest[i] == us[k + i];
    }
  }

  /** Replaying consecutive numbers: all that come after `n`, or nothing when the next one is gone. */
  lemma {:induction false} ReplayOfNumbered(us: seq<Msg>, a: SeqNum, n: SeqNum)
    requires Numbered(us, a) && n < a + |us| && a + |us| < 0x1_0000_0000
    ensures Replay(us, n) == if n + 1 < a then [] else us[n + 1 - a..]
  {
    if us != [] && n + 1 >= a {
      NumberedFrom(us, a, 1);
      if n + 1 == a {
        ReplayOfNumbered(us[1..], a + 1, a);
        assert us == [us[0]] + us[1..];
      } else {
        ReplayOfNumbered(us[1..], a + 1, n);
        assert us[1..][n + 1 - (a + 1)..] == us[n + 1 - a..];
      }
    }
  }

  lemma NextIndex(k: nat, size: nat)
    requires size > 0
    ensures (k + 1) % size == if k % size + 1 == size then 0 else k % size + 1
  {
    var q, r := k / size, k % size;
    if r + 1 == size {
      assert k + 1 == (q + 1) * size;
      Remainder(k + 1, q + 1, 0, size);
    } else {
      Remainder(k + 1, q, r + 1, size);
    }
  }

  lemma Remainder(x: nat, q: nat, r: nat, size: nat)
    requires r < size && x == q * size + r
    ensures x % size == r
  {
    var d := x / size - q;
    assert d * size == r - x % size;
    assert d < 1 by { if d >= 1 { Times(d, size); assert false; } }
    assert -d < 1 by { if -d >= 1 { Times(-d, size); assert false; } }
  }

  lemma Times(d: int, size: int)
    requires d >= 1 && size >= 0
    ensures d * size >= size
  {
  }

  /** What waiting does to the context: of all that has come it keeps the last messages, to be passed
    * on as stale if a recap is awaited. */
  function Held(cfg: Config, c: Ctx, us: seq<Msg>): Ctx
    requires cfg.cacheSize > 0
  {
    c.(ring := Last(us, cfg.cacheSize), idx := |us| % cfg.cacheSize,
       setCacheStale := c.setCacheStale || (us != [] && c.state == WaitingForRecap && cfg.preRecapCache))
  }

  lemma HeldBack(cfg: Config, c: Ctx, m: Msg)
    requires Holding(cfg, c) && CanWait(m.kind) && Usable(m.status)
    ensures var stale := c.setCacheStale || (c.state == WaitingForRecap && cfg.preRecapCache);
      Handled(cfg, c, Arrive(m)) == (Cached(cfg, c.(setCacheStale := stale), m), [])
  {
    hide ImageArrived;
    hide CheckSeqNum;
  }

  lemma CachedNext(cfg: Config, c: Ctx, p: seq<Msg>, m: Msg)
    requires cfg.cacheSize > 0
    ensures var stale := c.setCacheStale || (c.state == WaitingForRecap && cfg.preRecapCache);
      Cached(cfg, Held(cfg, c, p).(setCacheStale := stale), m) == Held(cfg, c, p + [m])
  {
    LastSnoc(p, m, cfg.cacheSize);
    NextIndex(|p|, cfg.cacheSize);
    var ring := Last(p, cfg.cacheSize);
    assert Pushed(ring, m, cfg.cacheSize) == Last(ring + [m], cfg.cacheSize);
  }

  lemma StillHolding(cfg: Config, c: Ctx, us: seq<Msg>)
    requires cfg.cacheSize > 0 && Holding(cfg, c)
    ensures Holding(cfg, Held(cfg, c, us))
    ensures var d := Held(cfg, c, us);
      (c.setCacheStale || (c.state == WaitingForRecap && cfg.preRecapCache)) ==
        (d.setCacheStale || (d.state == WaitingForRecap && cfg.preRecapCache))
  {
  }

  lemma OneMoreIsCached(cfg: Config, c: Ctx, p: seq<Msg>, m: Msg)
    requires cfg.cacheSize > 0 && Holding(cfg, c) && CanWait(m.kind) && Usable(m.status)
    requires From(cfg, c, Arrivals(p)) == (Held(cfg, c, p), [])
    ensures From(cfg, c, Arrivals(p + [m])) == (Held(cfg, c, p + [m]), [])
  {
    hide Handled;
    hide From;
    hide Cached;
    hide Held;
    hide Holding;
    StillHolding(cfg, c, p);
    HeldBack(cfg, Held(cfg, c, p), m);
    CachedNext(cfg, c, p, m);
    var none: seq<Delivery> := [];
    assert none + none == none;
    hide *;
    FromNext(cfg, c, p, m, Held(cfg, c, p), none, Held(cfg, c, p + [m]), none);
  }

  /** While an image is awaited nothing is delivered, number, state and publisher stay, and the cache
    * keeps the last messages. */
  lemma {:induction false} UpdatesAreCached(cfg: Config, c: Ctx, us: seq<Msg>)
    requires cfg.cacheSize > 0 && AllHeld(us) && Holding(cfg, c) && c.ring == [] && c.idx == 0
    ensures From(cfg, c, Arrivals(us)) == (Held(cfg, c, us), [])
  {
    hide From;
    FromNothing(cfg, c);
    assert us == [] ==> Arrivals(us) == [] && Last(us, cfg.cacheSize) == [];
    if us != [] {
      var p, m := us[..|us| - 1], us[|us| - 1];
      UpdatesAreCached(cfg, c, p);
      OneMoreIsCached(cfg, c, p, m);
      assert p + [m] == us;
    }
  }

  /** The number of the oldest cached update that the replay looks at. */
  function FirstKept(us: seq<Msg>, a: SeqNum, size: nat): int
    requires size > 0
  {
    if |us| < size then a else a + |us| - |us| % size
  }

  lemma SmallRemainder(k: nat, size: nat)
    requires size > 0
    ensures k < size ==> k % size == k
    ensures k % size <= k && k % size < size
  {
  }

  /** How many messages arrived before the ring last wrapped. */
  function Dropped(us: seq<Msg>, size: nat): (k: nat)
    requires size > 0
    ensures k <= |us|
  {
    SmallRemainder(|us|, size);
    |us| - |us| % size
  }

  /** What the replay looks at: all, or what arrived since the ring last wrapped. */
  function Kept(us: seq<Msg>, size: nat): seq<Msg>
    requires size > 0
  {
    us[Dropped(us, size)..]
  }

  lemma KeptBeforeIndex(cfg: Config, c: Ctx, us: seq<Msg>)
    requires cfg.cacheSize > 0
    ensures BeforeIndex(Held(cfg, c, us)) == Kept(us, cfg.cacheSize)
  {
    SmallRemainder(|us|, cfg.cacheSize);
  }

  lemma KeptReplay(us: seq<Msg>, a: SeqNum, n: SeqNum, size: nat)
    requires size > 0 && Numbered(us, a) && a + |us| < 0x1_0000_0000 && a <= n + 1 && n < a + |us|
    ensures var r := Replay(Kept(us, size), n);
      && r == (if FirstKept(us, a, size) <= n + 1 then us[n + 1 - a..] else [])
      && LastSeqNum(r, n) == n + |r|
  {
    hide Replay;
    SmallRemainder(|us|, size);
    var dropped := Dropped(us, size);
    NumberedFrom(us, a, dropped);
    ReplayOfNumbered(us[dropped..], a + dropped, n);
    assert a + dropped <= n + 1 ==> us[dropped..][n + 1 - (a + dropped)..] == us[n + 1 - a..];
  }

  lemma ImageReplays(cfg: Config, c: Ctx, image: Msg)
    requires EndsWait(cfg, image)
    ensures var (c', out) := ImageArrived(cfg, c, image);
      var r := Replay(BeforeIndex(c), image.seqNum);
      && out == [Delivery(image, Image)] + Deliveries(r, Replayed)
      && c'.seqNum == LastSeqNum(r, image.seqNum) && c'.ring == [] && c'.idx == 0
      && c'.sender == image.sender
  {
    hide CheckSeqNum;
    hide Replay;
    ImageChecked(cfg, CountedImage(c, image), image);
    assert [] + [Delivery(image, Image)] == [Delivery(image, Image)];
  }

  lemma FirstImageReplays(cfg: Config, c: Ctx, image: Msg)
    requires EndsWait(cfg, image)
    ensures var (c', out) := Handled(cfg, c, Arrive(image));
      var r := Replay(BeforeIndex(c), image.seqNum);
      && out == [Delivery(image, Image)] + Deliveries(r, Replayed)
      && c'.seqNum == LastSeqNum(r, image.seqNum) && c'.ring == [] && c'.idx == 0
      && c'.sender == image.sender
  {
    hide ImageArrived;
    hide UpdateArrived;
    hide Replay;
    ImageReplays(cfg, c, image);
  }

  lemma ReplayAfterHeld(cfg: Config, c: Ctx, us: seq<Msg>, image: Msg)
    requires cfg.cacheSize > 0 && AllHeld(us) && Holding(cfg, c) && c.ring == [] && c.idx == 0
    requires EndsWait(cfg, image)
    ensures var (c', out) := From(cfg, c, Arrivals(us + [image]));
      var r := Replay(Kept(us, cfg.cacheSize), image.seqNum);
      && out == [Delivery(image, Image)] + Deliveries(r, Replayed)
      && c'.seqNum == LastSeqNum(r, image.seqNum) && c'.ring == [] && c'.idx == 0
      && c'.sender == image.sender
  {
    hide *;
    var d := Held(cfg, c, us);
    UpdatesAreCached(cfg, c, us);
    KeptBeforeIndex(cfg, c, us);
    FirstImageReplays(cfg, d, image);
    var (c', out) := Handled(cfg, d, Arrive(image));
    FromNext(cfg, c, us, image, d, [], c', out);
    assert [] + out == out;
  }

  /** Consecutive updates that arrive while the first image, or a recap, is awaited: none of them is
    * delivered then. The image is, and the replay after it forwards every one with a higher number,
    * provided the next one arrived since the ring last wrapped (which is always so while the ring has
    * never been full); otherwise it forwards none. */
  lemma {:induction false} PreInitialUpdates(cfg: Config, c: Ctx, us: seq<Msg>, a: SeqNum, image: Msg)
    requires cfg.cacheSize > 0 && Numbered(us, a) && a + |us| < 0x1_0000_0000
    requires Holding(cfg, c) && c.ring == [] && c.idx == 0 && EndsWait(cfg, image)
    requires a <= image.seqNum + 1 && image.seqNum < a + |us|
    ensures var (c', out) := From(cfg, c, Arrivals(us + [image]));
      var next := image.seqNum + 1;
      var replayed := if FirstKept(us, a, cfg.cacheSize) <= next then us[next - a..] else [];
      && out == [Delivery(image, Image)] + Deliveries(replayed, Replayed)
      && c'.seqNum == image.seqNum + |replayed| && c'.ring == []
  {
    hide *;
    NumberedIsHeld(us, a);
    ReplayAfterHeld(cfg, c, us, image);
    KeptReplay(us, a, image.seqNum, cfg.cacheSize);
  }

  lemma NumberedIsHeld(us: seq<Msg>, a: SeqNum)
    requires Numbered(us, a)
    ensures AllHeld(us)
  {
  }

  // ---------- updates in any order that wait for an image ----------

  /** The messages with a higher number than `n`. */
  function Later(s: seq<Msg>, n: SeqNum): seq<Msg> {
    if s == [] then [] else (if s[0].seqNum > n then [s[0]] else []) + Later(s[1..], n)
  }

  predicate CountsUp(s: seq<Msg>, n: SeqNum) {
    forall k :: 0 <= k < |s| ==> s[k].seqNum == n + 1 + k
  }

  /** The first message, if it is a later one. */
  function FirstLater(s: seq<Msg>, n: SeqNum): seq<Msg>
    requires s != []
  {
    if s[0].seqNum > n then [s[0]] else []
  }

  lemma LaterStep(s: seq<Msg>, n: SeqNum)
    ensures s == [] ==> Later(s, n) == []
    ensures s != [] ==> Later(s, n) == FirstLater(s, n) + Later(s[1..], n)
  {
  }

  lemma {:induction false} LaterThanNext(s: seq<Msg>, n: SeqNum)
    requires n + 1 < 0x1_0000_0000
    ensures |Later(s, n + 1)| <= |Later(s, n)|
    ensures (forall m <- Later(s, n) :: m.seqNum != n + 1) ==> Later(s, n + 1) == Later(s, n)
  {
    hide Later;
    LaterStep(s, n);
    LaterStep(s, n + 1);
    if s != [] {
      LaterThanNext(s[1..], n);
      assert forall m <- Later(s[1..], n) :: m in Later(s, n);
      assert s[0].seqNum > n ==> Later(s, n)[0] == s[0];
    }
  }

  lemma {:induction false} LaterJoined(s: seq<Msg>, t: seq<Msg>, n: SeqNum)
    ensures Later(s + t, n) == Later(s, n) + Later(t, n)
  {
    hide Later;
    LaterStep(s, n);
    LaterStep(s + t, n);
    if s == [] {
      assert s + t == t;
    } else {
      LaterJoined(s[1..], t, n);
      assert (s + t)[1..] == s[1..] + t;
      Associative(FirstLater(s, n), Later(s[1..], n), Later(t, n));
    }
  }

  /** A replay counts up, and is no longer than what it could forward. */
  lemma {:induction false} ReplayWithin(s: seq<Msg>, n: SeqNum)
    requires n + |s| < 0x1_0000_0000
    ensures CountsUp(Replay(s, n), n) && |Replay(s, n)| <= |Later(s, n)|
  {
    hide Later;
    LaterStep(s, n);
    if s != [] {
      if s[0].seqNum == n + 1 {
        ReplayWithin(s[1..], n + 1);
        LaterThanNext(s[1..], n);
      } else if s[0].seqNum < n + 1 {
        ReplayWithin(s[1..], n);
      }
    }
  }

  /** What counts up is replayed whole. */
  lemma {:induction false} CountedIsReplayed(s: seq<Msg>, n: SeqNum)
    requires n + |s| < 0x1_0000_0000 && CountsUp(Later(s, n), n)
    ensures Replay(s, n) == Later(s, n)
  {
    hide Later;
    LaterStep(s, n);
    if s != [] {
      var rest := Later(s[1..], n);
      if s[0].seqNum > n {
        assert Later(s, n)[0].seqNum == n + 1;
        forall k | 0 <= k < |rest| ensures rest[k].seqNum == n + 2 + k {
          assert rest[k] == Later(s, n)[k + 1];
        }
        LaterThanNext(s[1..], n);
        CountedIsReplayed(s[1..], n + 1);
      } else {
        assert Later(s, n) == rest;
        CountedIsReplayed(s[1..], n);
      }
    }
  }

  /** Any updates while the first image, or a recap, is awaited: the replay forwards all those with a
    * higher number, in order of arrival, exactly when these count up from the image's number and none
    * of them arrived before the ring last wrapped. */
  lemma {:induction false} ReplayIsWholeExactlyWhen(cfg: Config, c: Ctx, us: seq<Msg>, image: Msg)
    requires cfg.cacheSize > 0 && AllHeld(us) && image.seqNum + |us| < 0x1_0000_0000
    requires Holding(cfg, c) && c.ring == [] && c.idx == 0 && EndsWait(cfg, image)
    ensures var later := Later(us, image.seqNum);
      From(cfg, c, Arrivals(us + [image])).1 == [Delivery(image, Image)] + Deliveries(later, Replayed) <==>
        CountsUp(later, image.seqNum) && Later(us[..Dropped(us, cfg.cacheSize)], image.seqNum) == []
  {
    hide *;
    ReplayAfterHeld(cfg, c, us, image);
    WholeExactlyWhen(us, cfg.cacheSize, image.seqNum);
    SameDeliveries([Delivery(image, Image)], Replay(Kept(us, cfg.cacheSize), image.seqNum), Later(us, image.seqNum));
  }

  lemma WholeExactlyWhen(us: seq<Msg>, size: nat, n: SeqNum)
    requires size > 0 && n + |us| < 0x1_0000_0000
    ensures Replay(Kept(us, size), n) == Later(us, n) <==>
      CountsUp(Later(us, n), n) && Later(us[..Dropped(us, size)], n) == []
  {
    var kept, dropped := us[Dropped(us, size)..], us[..Dropped(us, size)];
    hide Replay;
    hide Later;
    hide CountsUp;
    hide Dropped;
    LaterJoined(dropped, kept, n);
    assert dropped + kept == us;
    ReplayWithin(kept, n);
    if CountsUp(Later(us, n), n) && Later(dropped, n) == [] {
      assert Later(us, n) == Later(kept, n);
      CountedIsReplayed(kept, n);
    }
  }

  lemma SameDeliveries(first: seq<Delivery>, r: seq<Msg>, s: seq<Msg>)
    ensures first + Deliveries(r, Replayed) == first + Deliveries(s, Replayed) <==> r == s
  {
    var a, b := first + Deliveries(r, Replayed), first + Deliveries(s, Replayed);
    if a == b {
      assert |r| == |s|;
      forall k | 0 <= k < |r| ensures r[k] == s[k] {
        assert a[|first| + k] == b[|first| + k];
      }
    }
  }
}
