/** What a subscriber can count on, message by message and over runs, in terms of the numbers, the
  * publishers and the statuses alone. */
module DataQualityLaws {
  import opened Common
  import opened DataQuality
  import opened DataQualityRuns

  // ---------- runs in parts ----------

  /** A run in two parts. */
  lemma {:induction false} FromJoined(cfg: Config, c: Ctx, a: seq<Input>, b: seq<Input>)
    ensures var (c1, out1) := From(cfg, c, a);
      var (c2, out2) := From(cfg, c1, b);
      From(cfg, c, a + b) == (c2, out1 + out2)
  {
    hide Handled;
    if b == [] {
      assert a + b == a;
      assert From(cfg, c, a).1 + [] == From(cfg, c, a).1;
    } else {
      var p, i := b[..|b| - 1], b[|b| - 1];
      FromJoined(cfg, c, a, p);
      var (c1, out1) := From(cfg, c, a);
      var (c2, out2) := From(cfg, c1, p);
      var (c3, out3) := Handled(cfg, c2, i);
      FromLast(cfg, c, a + p, i, c2, out1 + out2, c3, out3);
      FromLast(cfg, c1, p, i, c2, out2, c3, out3);
      assert a + p + [i] == a + b && p + [i] == b;
      Associative(out1, out2, out3);
    }
  }

  lemma FromOneInput(cfg: Config, c: Ctx, i: Input)
    ensures From(cfg, c, [i]) == Handled(cfg, c, i)
  {
    hide Handled;
    hide From;
    FromNothing(cfg, c);
    var (c1, out) := Handled(cfg, c, i);
    FromQuiet(cfg, c, [], i, c, c1, out);
    assert [] + [i] == [i];
  }

  // ---------- statuses and kinds ----------

  /** A message with the status of an error, or of a kind that ends, refreshes or denies the subscription,
    * changes nothing in the context and is not delivered. */
  lemma NotForwarded(cfg: Config, c: Ctx, m: Msg)
    requires
      || m.status in {NotPermissioned, BadSymbol, Expired, NotFound, Timeout, NoSubscribers, BandwidthExceeded}
      || (Usable(m.status) && m.kind in {Delete, Expire, UnknownKind} && (c.expectingInitial ==> c.initialArrived))
      || (Usable(m.status) && m.kind in {Refresh, NotPermissionedKind, NotFoundKind} && !Holding(cfg, c))
    ensures Handled(cfg, c, Arrive(m)) == (c, [])
  {
    hide ImageArrived;
    hide CheckSeqNum;
  }

  /** What makes a subscription in good order possibly stale, and leaves any other as it is: the transport's
    * doubts, a message of unknown status, and a report of possibly stale data. */
  lemma QualityFalls(cfg: Config, c: Ctx, m: Msg)
    ensures var c1 := c.(state := if c.state == OkState then PossiblyStaleState else c.state);
      && Handled(cfg, c, TransportStale) == (c1, [])
      && (m.status == UnknownStatus ==> Handled(cfg, c, Arrive(m)) == (c1, []))
      && (Doubts(m) && Holding(cfg, c) && c.state != WaitingForRecap ==>
            Handled(cfg, c, Arrive(m)) == (Cached(cfg, c1, m), []))
  {
    hide ImageArrived;
    hide CheckSeqNum;
    hide Pushed;
  }

  /** A snapshot is delivered whatever the check makes of its number. */
  lemma SnapshotIsDelivered(cfg: Config, c: Ctx, m: Msg)
    requires m.kind in {Snapshot, BookSnapshot, DictSnapshot} && Usable(m.status)
    ensures var (c', out) := Handled(cfg, c, Arrive(m));
      && |out| > 0 && out[|out| - 1].how == Image && out[|out| - 1].msg.(status := m.status) == m
      && c'.imageCount == c.imageCount + (if m.last then 1 else 0)
      && c'.initialArrived == (c.initialArrived || m.last)
  {
    hide UpdateArrived;
    hide CheckSeqNum;
    CheckKeeps(cfg, CountedImage(c, m), m);
  }

  lemma CheckKeeps(cfg: Config, c: Ctx, m: Msg)
    ensures var k := CheckSeqNum(cfg, c, m);
      && k.m.(status := m.status) == m
      && k.c.imageCount == c.imageCount && k.c.initialArrived == c.initialArrived
  {
    hide CheckUpdate;
    var c0 := c.(doNotForward := false);
    var c1 := c0.(doNotForward := true, seqNum := m.seqNum, state := WaitingForRecapAfterFt);
    UpdateKeeps(cfg, c.seqNum, c.state, c0, m);
    UpdateKeeps(cfg, c.seqNum, c.state, c1, m);
  }

  lemma UpdateKeeps(cfg: Config, n: SeqNum, state: DqState, c: Ctx, m: Msg)
    ensures var k := CheckUpdate(cfg, n, state, c, m);
      && k.m.(status := m.status) == m
      && k.c.imageCount == c.imageCount && k.c.initialArrived == c.initialArrived
  {
    hide GapFilled;
  }

  /** A dictionary is delivered without any check. */
  lemma DictionaryIsNotChecked(cfg: Config, c: Ctx, m: Msg)
    requires m.kind == DictSnapshot && Usable(m.status) && SamePublisher(c, m)
    ensures Handled(cfg, c, Arrive(m)) ==
      (c.(doNotForward := false, imageCount := c.imageCount + (if m.last then 1 else 0),
          initialArrived := c.initialArrived || m.last),
       [Delivery(m, Image)])
  {
    hide CheckUpdate;
    hide CheckImage;
    hide UpdateArrived;
    var d := [Delivery(m, Image)];
    assert [] + d + [] == d;
  }

  // ---------- updates in turn ----------

  /** How far an update moves the number on: security statuses and book updates are never conflated. */
  function Stride(m: Msg): nat {
    if m.kind in {SecStatus, BookUpdate} then 1 else m.conflate
  }

  /** An update that comes next, comes first, or has no number. */
  predicate InTurn(cfg: Config, c: Ctx, m: Msg) {
    && IsUpdate(m.kind) && SamePublisher(c, m) && !Holding(cfg, c)
    && (c.state == NotEstablished || m.seqNum == 0 || m.seqNum == (c.seqNum + Stride(m)) % 0x1_0000_0000)
  }

  /** The cache is of no use any more once the sequence goes on. */
  function GapForgotten(c: Ctx): Ctx {
    if c.tryToFillGap then c.(tryToFillGap := false, ring := [], idx := 0) else c
  }

  /** It is delivered as it is, and the context goes on from its number in good order. */
  lemma InTurnIsDelivered(cfg: Config, c: Ctx, m: Msg)
    requires InTurn(cfg, c, m) && m.status == Ok
    ensures Handled(cfg, c, Arrive(m)) ==
      (GapForgotten(c).(doNotForward := false, state := OkState, seqNum := m.seqNum), [Delivery(m, Direct)])
  {
    hide Handled;
    hide CheckSeqNum;
    UpdatePasses(cfg, c, m);
    CheckIsUpdate(cfg, c, m);
    var d := [Delivery(m, Direct)];
    assert [] + d == d;
  }

  /** With a doubtful status it is delivered as stale instead, the number stays, and a recap is awaited. */
  lemma DoubtfulIsStale(cfg: Config, c: Ctx, m: Msg)
    requires InTurn(cfg, c, m) && Usable(m.status) && m.status != Ok && !Doubts(m)
    requires c.state != NotEstablished && c.state != WaitingForRecapAfterFt && m.seqNum > c.seqNum
    ensures Handled(cfg, c, Arrive(m)) == (GapForgotten(c).(doNotForward := false, state := WaitingForRecap),
      [Delivery(m.(status := Stale), Direct)])
  {
    hide Handled;
    hide CheckSeqNum;
    UpdatePasses(cfg, c, m);
    DoubtfulIsChecked(cfg, c, m);
    var d := [Delivery(m.(status := Stale), Direct)];
    assert [] + d == d;
  }

  lemma DoubtfulIsChecked(cfg: Config, c: Ctx, m: Msg)
    requires InTurn(cfg, c, m) && m.status != Ok && m.seqNum > c.seqNum
    requires c.state != NotEstablished && c.state != WaitingForRecapAfterFt
    ensures CheckSeqNum(cfg, c, m) ==
      Checked(GapForgotten(c).(doNotForward := false, state := WaitingForRecap), m.(status := Stale), [])
  {
    hide CheckSeqNum;
    hide GapMet;
    CheckIsUpdate(cfg, c, m);
    NotFilled(cfg, GapForgotten(c).(doNotForward := false), m);
  }

  /** The first update of a new subscription is accepted whatever its number. */
  lemma {:induction false} NewSubscriptionStarts(cfg: Config, m: Msg)
    requires IsUpdate(m.kind) && m.status == Ok
    ensures After(cfg, [Arrive(m)]) == (FRESH.(state := OkState, seqNum := m.seqNum), [Delivery(m, Direct)])
  {
    assert InTurn(cfg, FRESH, m) && GapForgotten(FRESH) == FRESH;
    hide *;
    InTurnIsDelivered(cfg, FRESH, m);
    FromOneInput(cfg, FRESH, Arrive(m));
    IsAfter(cfg, [Arrive(m)]);
  }

  lemma IsAfter(cfg: Config, inputs: seq<Input>)
    ensures After(cfg, inputs) == From(cfg, FRESH, inputs) && !FRESH.doNotForward
  {
  }

  /** Once no image is expected any more, updates are delivered without one. */
  lemma {:induction false} ExpectationEnds(cfg: Config, c: Ctx, us: seq<Msg>)
    requires !(c.state == WaitingForRecap && cfg.preRecapCache) && InSequence(c, c.seqNum, us)
    ensures From(cfg, c, [ExpectInitial(false)] + Arrivals(us)).1 == Deliveries(us, Direct)
  {
    var c1 := c.(expectingInitial := false);
    assert Handled(cfg, c, ExpectInitial(false)) == (c1, []) && !Holding(cfg, c1);
    SameSequence(c, c1, c.seqNum, us);
    hide *;
    FromOneInput(cfg, c, ExpectInitial(false));
    FromJoined(cfg, c, [ExpectInitial(false)], Arrivals(us));
    SequenceIsDelivered(cfg, c1, us);
    assert [] + Deliveries(us, Direct) == Deliveries(us, Direct);
  }

  lemma {:induction false} SameSequence(c: Ctx, c1: Ctx, n: SeqNum, us: seq<Msg>)
    requires c1.sender == c.sender && InSequence(c, n, us)
    ensures InSequence(c1, n, us)
  {
    if us != [] {
      SameSequence(c, c1, n, us[..|us| - 1]);
    }
  }

  /** Without a cache what comes while an image is awaited is lost. */
  lemma {:induction false} LostWithoutCache(cfg: Config, c: Ctx, us: seq<Msg>)
    requires cfg.cacheSize == 0 && AllHeld(us) && Holding(cfg, c)
    ensures var stale := c.setCacheStale || (us != [] && c.state == WaitingForRecap && cfg.preRecapCache);
      From(cfg, c, Arrivals(us)) == (c.(setCacheStale := stale), [])
  {
    FromNothing(cfg, c);
    hide Handled;
    hide From;
    assert us == [] ==> Arrivals(us) == [];
    if us != [] {
      var p, m := us[..|us| - 1], us[|us| - 1];
      LostWithoutCache(cfg, c, p);
      var c1 := From(cfg, c, Arrivals(p)).0;
      HeldBack(cfg, c1, m);
      var none: seq<Delivery> := [];
      FromNext(cfg, c, p, m, c1, none, Handled(cfg, c1, Arrive(m)).0, none);
      assert p + [m] == us && none + none == none;
    }
  }

  // ---------- repeated and missed numbers ----------

  /** An update of the known publisher that is neither held back nor the first of the subscription, and
    * whose number is not the one that comes next. */
  predicate OutOfTurn(cfg: Config, c: Ctx, m: Msg) {
    && IsUpdate(m.kind) && m.status == Ok && SamePublisher(c, m) && !Holding(cfg, c)
    && c.state != NotEstablished && c.state != WaitingForRecapAfterFt
    && m.seqNum != 0 && m.seqNum != (c.seqNum + Stride(m)) % 0x1_0000_0000
  }

  /** Where repeats are ignored, an update with the number of the context or a lower one never reaches
    * the client, and leaves number, state and cache as they are. */
  lemma RepeatIsIgnored(cfg: Config, c: Ctx, m: Msg)
    requires cfg.ignoreDups && OutOfTurn(cfg, c, m) && m.seqNum <= c.seqNum
    ensures Handled(cfg, c, Arrive(m)) == (c.(doNotForward := true), [])
  {
    hide Handled;
    hide CheckSeqNum;
    UpdatePasses(cfg, c, m);
    CheckIsUpdate(cfg, c, m);
    var none: seq<Delivery> := [];
    assert none + none == none;
  }

  /** Elsewhere an update with the context's own number is delivered once more, marked. */
  lemma RepeatIsMarked(cfg: Config, c: Ctx, m: Msg)
    requires !cfg.ignoreDups && OutOfTurn(cfg, c, m) && m.seqNum == c.seqNum
    ensures Handled(cfg, c, Arrive(m)) ==
      (c.(doNotForward := false, state := DuplicateState), [Delivery(m.(status := Duplicate), Direct)])
  {
    hide Handled;
    hide CheckSeqNum;
    UpdatePasses(cfg, c, m);
    CheckIsUpdate(cfg, c, m);
    var d := [Delivery(m.(status := Duplicate), Direct)];
    assert [] + d == d;
  }

  /** A number that was skipped, or an older one where repeats are not ignored, with no fill to try: the
    * update is delivered as stale, the number stays, and a recap is awaited. */
  lemma MissedIsStale(cfg: Config, c: Ctx, m: Msg)
    requires OutOfTurn(cfg, c, m) && (if cfg.ignoreDups then m.seqNum > c.seqNum else m.seqNum != c.seqNum)
    requires cfg.onInitial || !c.tryToFillGap
    ensures Handled(cfg, c, Arrive(m)) ==
      (c.(doNotForward := false, state := WaitingForRecap), [Delivery(m.(status := Stale), Direct)])
  {
    hide Handled;
    hide CheckSeqNum;
    UpdatePasses(cfg, c, m);
    CheckIsUpdate(cfg, c, m);
    var d := [Delivery(m.(status := Stale), Direct)];
    assert [] + d == d;
  }

  // ---------- no number twice ----------

  /** Messages of one publisher, none of them an image, with numbers that do not wrap round. */
  predicate Counting(s: nat, i: Input) {
    i.Arrive? ==>
      && i.m.kind !in {Initial, BookInitial, Recap, BookRecap, Snapshot, BookSnapshot, DictSnapshot}
      && i.m.sender in {0, s} && 1 <= Stride(i.m) <= i.m.seqNum && i.m.status != Duplicate
  }

  /** The delivered update counts: its number is above `n`, and it is not marked as a repeat. */
  predicate Above(n: SeqNum, d: Delivery) {
    d.how == Direct ==> d.msg.seqNum > n && d.msg.status != Duplicate
  }

  predicate AllAbove(n: SeqNum, out: seq<Delivery>) {
    forall k :: 0 <= k < |out| ==> Above(n, out[k])
  }

  /** Updates delivered as good have numbers up to the context's. */
  predicate UpTo(n: SeqNum, out: seq<Delivery>) {
    forall k :: 0 <= k < |out| ==> (AsGood(out[k]) ==> out[k].msg.seqNum <= n)
  }

  predicate AsGood(d: Delivery) {
    d.how == Direct && d.msg.status != Stale
  }

  predicate OnlyLastDirect(out: seq<Delivery>) {
    forall k :: 0 <= k < |out| - 1 ==> out[k].how != Direct
  }

  predicate Established(s: nat, c: Ctx) {
    c.state != NotEstablished && c.sender in {0, s}
  }

  lemma GapCounts(cfg: Config, c: Ctx, m: Msg)
    ensures var k := GapMet(cfg, c, m);
      && k.c.sender == c.sender && k.c.doNotForward == c.doNotForward && (k.c.state in {c.state, WaitingForRecap})
      && (k.c.seqNum in {c.seqNum, m.seqNum}) && k.m.seqNum == m.seqNum
      && (k.m.status == Stale || (k.m == m && k.c.seqNum == m.seqNum))
      && forall i :: 0 <= i < |k.out| ==> k.out[i].how == Filled
  {
    hide Fill;
    hide FillsGap;
    hide MarkStale;
  }

  lemma CheckCounts(cfg: Config, s: nat, c: Ctx, m: Msg)
    requires cfg.ignoreDups && Established(s, c) && Counting(s, Arrive(m)) && !IsImage(m.kind)
    ensures var k := CheckSeqNum(cfg, c, m);
      && Established(s, k.c) && k.c.seqNum >= c.seqNum
      && k.m.seqNum == m.seqNum
      && (!k.c.doNotForward ==> m.seqNum > c.seqNum && k.m.status != Duplicate)
      && (!k.c.doNotForward && k.m.status != Stale ==> m.seqNum <= k.c.seqNum)
      && forall i :: 0 <= i < |k.out| ==> k.out[i].how == Filled
  {
    hide CheckSeqNum;
    hide GapMet;
    hide GapClosed;
    CheckIsUpdate(cfg, c, m);
    var c0 := c.(doNotForward := false);
    ClosedKeeps(c0);
    GapCounts(cfg, c0, m);
    GapCounts(cfg, GapClosed(c0), m);
  }

  lemma UpdateCounts(cfg: Config, s: nat, c: Ctx, m: Msg)
    requires cfg.ignoreDups && Established(s, c) && Counting(s, Arrive(m)) && !IsImage(m.kind)
    ensures var (c', out) := UpdateArrived(cfg, c, m); Counts(s, c, c', out)
  {
    hide CheckSeqNum;
    hide Pushed;
    hide Takeover;
    if !MustWait(cfg, c, m) && !IsControl(m.kind) {
      CheckCounts(cfg, s, c, m);
    }
  }

  /** One step of the run. */
  predicate Counts(s: nat, c: Ctx, c': Ctx, out: seq<Delivery>) {
    && Established(s, c') && c'.seqNum >= c.seqNum
    && AllAbove(c.seqNum, out) && UpTo(c'.seqNum, out) && OnlyLastDirect(out)
  }

  lemma StepCounts(cfg: Config, s: nat, c: Ctx, i: Input)
    requires cfg.ignoreDups && Established(s, c) && Counting(s, i)
    ensures var (c', out) := Handled(cfg, c, i); Counts(s, c, c', out)
  {
    hide ImageArrived;
    hide UpdateArrived;
    if i.Arrive? && !IsError(i.m.status) && i.m.status != UnknownStatus {
      var c1 := if i.m.status == PossiblyStale && i.m.kind == MiscKind then MadePossiblyStale(c) else c;
      UpdateCounts(cfg, s, c1, i.m);
    }
  }

  /** Where repeats are ignored: over every run of one publisher without an image, all updates that are
    * delivered as they come have higher numbers than the one the run started at, none is marked as a
    * repeat, and one that was delivered as good is followed by higher numbers only. So no number
    * is delivered as good twice. */
  lemma {:induction false} NoNumberTwice(cfg: Config, s: nat, c: Ctx, inputs: seq<Input>)
    requires cfg.ignoreDups && Established(s, c) && forall k :: 0 <= k < |inputs| ==> Counting(s, inputs[k])
    ensures var (c', out) := From(cfg, c, inputs);
      && Established(s, c') && c'.seqNum >= c.seqNum
      && (forall i :: 0 <= i < |out| && out[i].how == Direct ==>
            out[i].msg.seqNum > c.seqNum && out[i].msg.status != Duplicate)
      && (forall i, j :: 0 <= i < j < |out| && AsGood(out[i]) && out[j].how == Direct ==>
            out[i].msg.seqNum < out[j].msg.seqNum)
      && UpTo(c'.seqNum, out)
  {
    if inputs != [] {
      var n := |inputs| - 1;
      NoNumberTwice(cfg, s, c, inputs[..n]);
      hide Handled;
      var (c1, out1) := From(cfg, c, inputs[..n]);
      var (c2, out2) := Handled(cfg, c1, inputs[n]);
      StepCounts(cfg, s, c1, inputs[n]);
      var out := out1 + out2;
      forall i, j | 0 <= i < j < |out| && AsGood(out[i]) && out[j].how == Direct
        ensures out[i].msg.seqNum < out[j].msg.seqNum
      {
        assert j >= |out1| ==> Above(c1.seqNum, out2[j - |out1|]);
      }
      forall i | 0 <= i < |out2| && out2[i].how == Direct
        ensures out2[i].msg.seqNum > c.seqNum && out2[i].msg.status != Duplicate
      {
        assert Above(c1.seqNum, out2[i]);
      }
    }
  }

  /** A number that was skipped is not remembered: while no recap cache holds the updates back, one that
    * comes twice is delivered twice, marked as stale both times. */
  lemma {:induction false} SkippedRepeats(cfg: Config, c: Ctx, m: Msg)
    requires OutOfTurn(cfg, c, m) && m.seqNum > c.seqNum && (cfg.onInitial || !c.tryToFillGap) && !cfg.preRecapCache
    ensures var stale := Delivery(m.(status := Stale), Direct);
      From(cfg, c, [Arrive(m), Arrive(m)]) == (c.(doNotForward := false, state := WaitingForRecap), [stale, stale])
  {
    hide Handled;
    hide From;
    var c1, out := c.(doNotForward := false, state := WaitingForRecap), [Delivery(m.(status := Stale), Direct)];
    MissedIsStale(cfg, c, m);
    MissedIsStale(cfg, c1, m);
    FromNothing(cfg, c);
    FromQuiet(cfg, c, [], Arrive(m), c, c1, out);
    assert [] + [Arrive(m)] == [Arrive(m)];
    FromLast(cfg, c, [Arrive(m)], Arrive(m), c1, out, c1, out);
    assert [Arrive(m)] + [Arrive(m)] == [Arrive(m), Arrive(m)];
    assert out + out == [out[0], out[0]];
  }

  // ---------- recovery ----------

  /** A recap asked for by the client, or by the subscription at a missed number: up to the recap nothing
    * is delivered but the stale update itself, and then the recap and what has come since. */
  lemma {:induction false} RecapRecovers(cfg: Config, c: Ctx, i: Input, us: seq<Msg>, image: Msg)
    requires cfg.preRecapCache && cfg.cacheSize > 0 && AllHeld(us) && EndsWait(cfg, image)
    requires c.ring == [] && c.idx == 0
    requires i == RequestRecap || (i.Arrive? && OutOfTurn(cfg, c, i.m) && i.m.seqNum > c.seqNum)
    ensures var (c', out) := From(cfg, c, [i] + Arrivals(us + [image]));
      var shown := if i == RequestRecap then [] else [Delivery(i.m.(status := Stale), Direct)];
      var r := Replay(Kept(us, cfg.cacheSize), image.seqNum);
      && out == shown + ([Delivery(image, Image)] + Deliveries(r, Replayed))
      && c'.seqNum == LastSeqNum(r, image.seqNum) && c'.sender == image.sender
  {
    if i.Arrive? {
      assert cfg.onInitial;
      MissedIsStale(cfg, c, i.m);
    }
    var (c1, out1) := Handled(cfg, c, i);
    assert Holding(cfg, c1) && c1.ring == [] && c1.idx == 0;
    hide *;
    FromOneInput(cfg, c, i);
    FromJoined(cfg, c, [i], Arrivals(us + [image]));
    ReplayAfterHeld(cfg, c1, us, image);
  }

  function StateAfter(cfg: Config, c: Ctx, image: Msg): DqState {
    if image.kind in {Initial, BookInitial} && image.status in {PossiblyStale, Stale}
       && (SamePublisher(c, image) || cfg.waitForRecap)
    then StaleNoRecap else OkState
  }

  lemma ImageIsChecked(cfg: Config, c: Ctx, image: Msg)
    requires image.kind in {Initial, BookInitial, Recap, BookRecap}
    ensures CheckSeqNum(cfg, c, image).c ==
      if SamePublisher(c, image) then CheckImage(cfg, c.(doNotForward := false), image)
      else if cfg.waitForRecap then
        CheckImage(cfg, c.(doNotForward := true, seqNum := image.seqNum, state := WaitingForRecapAfterFt), image)
      else c.(doNotForward := false, state := OkState, seqNum := image.seqNum, sender := image.sender)
  {
    hide CheckUpdate;
    hide CheckImage;
  }

  lemma CheckImageDoes(cfg: Config, c: Ctx, image: Msg)
    requires image.kind in {Initial, BookInitial, Recap, BookRecap}
    ensures var c', doubtful := CheckImage(cfg, c, image),
        image.kind in {Initial, BookInitial} && image.status in {PossiblyStale, Stale};
      && c'.state == (if doubtful then StaleNoRecap else OkState)
      && c'.imageCount == c.imageCount && c'.initialArrived == c.initialArrived
      && c'.expectingInitial == c.expectingInitial && c'.setCacheStale == c.setCacheStale
      && (c'.state == OkState ==> !c'.doNotForward)
      && c'.tryToFillGap == (c.tryToFillGap || image.kind in {Initial, BookInitial} || cfg.preRecapCache)
  {
  }

  lemma ImageState(cfg: Config, c: Ctx, image: Msg)
    requires image.kind in {Initial, BookInitial, Recap, BookRecap}
    ensures var k := CheckSeqNum(cfg, c, image);
      && k.c.state == StateAfter(cfg, c, image)
      && k.c.imageCount == c.imageCount && k.c.initialArrived == c.initialArrived
      && k.c.expectingInitial == c.expectingInitial && k.c.setCacheStale == c.setCacheStale
      && (k.c.state == OkState ==> !k.c.doNotForward)
      && (SamePublisher(c, image) || cfg.waitForRecap ==>
            k.c.tryToFillGap == (c.tryToFillGap || image.kind in {Initial, BookInitial} || cfg.preRecapCache))
  {
    hide CheckSeqNum;
    hide CheckImage;
    ImageIsChecked(cfg, c, image);
    CheckImageDoes(cfg, c.(doNotForward := false), image);
    CheckImageDoes(cfg, c.(doNotForward := true, seqNum := image.seqNum, state := WaitingForRecapAfterFt), image);
  }

  /** What of the cache is passed on after the image. */
  function PassedAfter(cfg: Config, c: Ctx, image: Msg): seq<Msg> {
    if EndsWait(cfg, image) then Replay(BeforeIndex(c), image.seqNum) else []
  }

  /** All that an image does. */
  predicate ImageDoes(cfg: Config, c: Ctx, image: Msg, c1: Ctx, out: seq<Delivery>) {
    && out == [Delivery(image, Image)] + Deliveries(PassedAfter(cfg, c, image), Replayed)
    && c1.seqNum == LastSeqNum(PassedAfter(cfg, c, image), image.seqNum) && c1.sender == image.sender
    && c1.state == StateAfter(cfg, c, image)
    && c1.imageCount == c.imageCount + (if image.last then 1 else 0)
    && c1.initialArrived == (c.initialArrived || image.last)
    && c1.expectingInitial == c.expectingInitial && c1.setCacheStale == c.setCacheStale
    && (SamePublisher(c, image) || cfg.waitForRecap ==>
          c1.tryToFillGap == (c.tryToFillGap || image.kind in {Initial, BookInitial} || cfg.preRecapCache))
    && (c1.state == OkState ==> !c1.doNotForward)
    && (if EndsWait(cfg, image) then c1.ring == [] && c1.idx == 0 else c1.ring == c.ring && c1.idx == c.idx)
  }

  lemma ImageIsTaken(cfg: Config, c: Ctx, image: Msg)
    requires image.kind in {Initial, BookInitial, Recap, BookRecap} && Usable(image.status)
    ensures var (c1, out) := ImageArrived(cfg, c, image); ImageDoes(cfg, c, image, c1, out)
  {
    hide CheckSeqNum;
    hide Replay;
    hide BeforeIndex;
    hide StateAfter;
    var c0 := CountedImage(c, image);
    ImageChecked(cfg, c0, image);
    ImageState(cfg, c0, image);
    assert StateAfter(cfg, c0, image) == StateAfter(cfg, c, image) by { SameState(cfg, c, image); }
    var out := [Delivery(image, Image)];
    assert [] + out == out && Deliveries([], Replayed) == [] && out + [] == out;
    SameRing(c, CheckSeqNum(cfg, c0, image).c);
  }

  lemma SameState(cfg: Config, c: Ctx, image: Msg)
    ensures StateAfter(cfg, CountedImage(c, image), image) == StateAfter(cfg, c, image)
  {
  }

  lemma ImageHandled(cfg: Config, c: Ctx, image: Msg)
    requires image.kind in {Initial, BookInitial, Recap, BookRecap} && Usable(image.status)
    ensures var (c1, out) := Handled(cfg, c, Arrive(image)); ImageDoes(cfg, c, image, c1, out)
  {
    hide ImageArrived;
    hide UpdateArrived;
    hide ImageDoes;
    ImageIsTaken(cfg, c, image);
  }

  lemma SameRing(c: Ctx, c': Ctx)
    ensures c'.ring == c.ring && c'.idx == c.idx ==> BeforeIndex(c') == BeforeIndex(c)
  {
  }

  /** An initial or a recap, from any publisher and in any state of the context: it is
    * delivered first, then what the cache has to follow it, and the updates that continue the sequence
    * are all delivered, unmarked. */
  lemma {:induction false} ImageRestores(cfg: Config, c: Ctx, image: Msg, us: seq<Msg>)
    requires image.kind in {Initial, BookInitial, Recap, BookRecap} && Usable(image.status)
    requires image.last || c.initialArrived || !c.expectingInitial
    ensures var (c1, out1) := Handled(cfg, c, Arrive(image));
      && out1 == [Delivery(image, Image)] + Deliveries(PassedAfter(cfg, c, image), Replayed)
      && c1.seqNum == LastSeqNum(PassedAfter(cfg, c, image), image.seqNum) && c1.sender == image.sender
      && c1.state == StateAfter(cfg, c, image)
      && c1.imageCount == c.imageCount + (if image.last then 1 else 0)
      && (InSequence(c1, c1.seqNum, us) ==>
            From(cfg, c, [Arrive(image)] + Arrivals(us)).1 == out1 + Deliveries(us, Direct))
  {
    var (c1, out1) := Handled(cfg, c, Arrive(image));
    ImageHandled(cfg, c, image);
    if InSequence(c1, c1.seqNum, us) {
      hide *;
      FromOneInput(cfg, c, Arrive(image));
      FromJoined(cfg, c, [Arrive(image)], Arrivals(us));
      SequenceIsDelivered(cfg, c1, us);
    }
  }

  // ---------- takeover ----------

  /** A known publisher other than the context's. */
  predicate OtherPublisher(c: Ctx, m: Msg) {
    c.sender != 0 && m.sender != 0 && m.sender != c.sender
  }

  /** Without waiting for a recap, the first update of another publisher is delivered, unmarked, whatever
    * its number; the sequence goes on from there, and it is the new publisher's. */
  lemma {:induction false} TakeoverIsFollowed(cfg: Config, c: Ctx, m: Msg, us: seq<Msg>)
    requires !cfg.waitForRecap && OtherPublisher(c, m) && !Holding(cfg, c)
    requires IsUpdate(m.kind) && Usable(m.status)
    ensures var c1 := c.(state := OkState, seqNum := m.seqNum, sender := m.sender, doNotForward := false);
      && Handled(cfg, c, Arrive(m)) == (c1, [Delivery(m, Direct)])
      && (InSequence(c1, m.seqNum, us) ==>
            From(cfg, c, [Arrive(m)] + Arrivals(us)).1 == [Delivery(m, Direct)] + Deliveries(us, Direct))
  {
    var c1 := c.(state := OkState, seqNum := m.seqNum, sender := m.sender, doNotForward := false);
    OtherIsTaken(cfg, c, m);
    assert !Holding(cfg, c1);
    if InSequence(c1, m.seqNum, us) {
      hide *;
      FromOneInput(cfg, c, Arrive(m));
      FromJoined(cfg, c, [Arrive(m)], Arrivals(us));
      SequenceIsDelivered(cfg, c1, us);
    }
  }

  lemma OtherIsTaken(cfg: Config, c: Ctx, m: Msg)
    requires !cfg.waitForRecap && OtherPublisher(c, m) && !Holding(cfg, c)
    requires IsUpdate(m.kind) && Usable(m.status)
    ensures var c1 := c.(state := OkState, seqNum := m.seqNum, sender := m.sender, doNotForward := false);
      Handled(cfg, c, Arrive(m)) == (c1, [Delivery(m, Direct)])
  {
    hide ImageArrived;
    hide CheckSeqNum;
    OtherIsChecked(cfg, c, m);
    OtherIsChecked(cfg, c.(state := PossiblyStaleState), m);
    assert [] + [Delivery(m, Direct)] == [Delivery(m, Direct)];
  }

  lemma OtherIsChecked(cfg: Config, c: Ctx, m: Msg)
    requires !cfg.waitForRecap && OtherPublisher(c, m)
    ensures CheckSeqNum(cfg, c, m) ==
      Checked(c.(state := OkState, seqNum := m.seqNum, sender := m.sender, doNotForward := false), m, [])
  {
    hide CheckUpdate;
    hide CheckImage;
  }

  lemma OtherIsNoticed(cfg: Config, c: Ctx, m: Msg)
    requires cfg.waitForRecap && OtherPublisher(c, m) && !IsImage(m.kind)
    ensures CheckSeqNum(cfg, c, m) == CheckUpdate(cfg, c.seqNum, c.state,
      c.(doNotForward := true, seqNum := m.seqNum, state := WaitingForRecapAfterFt), m)
  {
    hide CheckUpdate;
    hide CheckImage;
  }

  /** Where a recap is awaited after a takeover, an update of another publisher that is out of turn is not
    * delivered. Its number is taken over; the publisher stays. */
  lemma OtherIsHeldBack(cfg: Config, c: Ctx, m: Msg)
    requires cfg.waitForRecap && cfg.onInitial && OtherPublisher(c, m) && !Holding(cfg, c)
    requires IsUpdate(m.kind) && m.status == Ok && c.state != NotEstablished
    requires m.seqNum != 0 && m.seqNum != (c.seqNum + Stride(m)) % 0x1_0000_0000
    ensures var (c', out) := Handled(cfg, c, Arrive(m));
      && out == [] && c'.sender == c.sender && c'.seqNum == m.seqNum
      && c'.state ==
        if (cfg.ignoreDups && m.seqNum <= c.seqNum) || c.state == WaitingForRecapAfterFt then WaitingForRecapAfterFt
        else if m.seqNum == c.seqNum then DuplicateState else WaitingForRecap
  {
    hide Handled;
    hide CheckSeqNum;
    hide GapMet;
    hide CheckUpdate;
    UpdatePasses(cfg, c, m);
    OtherIsNoticed(cfg, c, m);
    OutOfTurnHeldBack(cfg, c, c.(doNotForward := true, seqNum := m.seqNum, state := WaitingForRecapAfterFt), m);
    var none: seq<Delivery> := [];
    assert none + none == none;
  }

  lemma OutOfTurnHeldBack(cfg: Config, c: Ctx, c1: Ctx, m: Msg)
    requires cfg.onInitial && c1.doNotForward && c1.state == WaitingForRecapAfterFt
    requires c.state != NotEstablished && m.seqNum != 0 && m.seqNum != (c.seqNum + Stride(m)) % 0x1_0000_0000
    ensures var k := CheckUpdate(cfg, c.seqNum, c.state, c1, m);
      && k.out == [] && k.c.doNotForward && k.c.sender == c1.sender && k.c.seqNum == c1.seqNum
      && k.c.state ==
        if (cfg.ignoreDups && m.seqNum <= c.seqNum) || c.state == WaitingForRecapAfterFt then WaitingForRecapAfterFt
        else if m.seqNum == c.seqNum then DuplicateState else WaitingForRecap
  {
    hide GapMet;
    NotFilled(cfg, c1, m);
  }

  // ---------- a gap after the first image ----------

  lemma GapIsTried(cfg: Config, c: Ctx, m: Msg)
    requires TriesToFill(cfg, c, m) && c.seqNum + 1 < m.seqNum && !Holding(cfg, c) && IsUpdate(m.kind) && m.status == Ok
    ensures var (c', out) := Handled(cfg, c, Arrive(m));
      var whole := HoldsInOrder(c.ring, c.seqNum + 1, m.seqNum);
      var r := Fill(c.ring, c.seqNum + 1, m.seqNum);
      && out == Deliveries(if c.setCacheStale then MarkStale(r) else r, Filled)
        + [Delivery(if whole then m else m.(status := Stale), Direct)]
      && (forall k :: 0 <= k < |r| ==> r[k].seqNum == c.seqNum + 1 + k && r[k] in c.ring)
      && (whole <==> |r| == m.seqNum - c.seqNum - 1)
      && c'.seqNum == (if whole then m.seqNum else c.seqNum)
      && c'.state == (if whole then c.state else WaitingForRecap) && c'.ring == []
  {
    hide Handled;
    hide CheckSeqNum;
    hide Fill;
    hide FillsGap;
    hide HoldsInOrder;
    hide ReachesFill;
    UpdatePasses(cfg, c, m);
    FillTried(cfg, c, m);
    FillCountsUp(c.ring, c.seqNum + 1, m.seqNum);
    FillsGapExactlyWhenCached(c.ring, c.seqNum + 1, m.seqNum);
  }

  lemma ReadyToFill(cfg: Config, c: Ctx, us: seq<Msg>, image: Msg, m: Msg)
    requires !cfg.onInitial && cfg.cacheSize > 0
    requires image.kind in {Initial, BookInitial} || (image.kind in {Recap, BookRecap} && cfg.preRecapCache)
    requires image.last && Usable(image.status) && (SamePublisher(c, image) || cfg.waitForRecap)
    requires IsUpdate(m.kind) && m.status == Ok && (m.sender == 0 || image.sender == 0 || m.sender == image.sender)
    requires image.seqNum + 1 < m.seqNum && m.seqNum != (image.seqNum + Stride(m)) % 0x1_0000_0000
    ensures var (c1, out1) := Handled(cfg, Held(cfg, c, us), Arrive(image));
      && out1 == [Delivery(image, Image)] && c1.ring == Last(us, cfg.cacheSize)
      && c1.state == StateAfter(cfg, c, image) && c1.seqNum == image.seqNum
      && c1.setCacheStale == Held(cfg, c, us).setCacheStale
      && TriesToFill(cfg, c1, m) && !Holding(cfg, c1)
  {
    hide Handled;
    ImageHandled(cfg, Held(cfg, c, us), image);
    assert [Delivery(image, Image)] + Deliveries([], Replayed) == [Delivery(image, Image)];
  }

  /** Under the on-gap scheme the updates that came before an image fill the first gap after it: if they
    * include all that are missing, in order of arrival, these are delivered and then the update,
    * unmarked; otherwise what there is, up to the first that is not, and the update marked as stale. */
  lemma {:induction false} CachedUpdatesFillTheGap(cfg: Config, c: Ctx, us: seq<Msg>, image: Msg, m: Msg)
    requires !cfg.onInitial && cfg.cacheSize > 0 && AllHeld(us) && Holding(cfg, c)
    requires c.ring == [] && c.idx == 0
    requires image.kind in {Initial, BookInitial} || (image.kind in {Recap, BookRecap} && cfg.preRecapCache)
    requires image.last && Usable(image.status) && (SamePublisher(c, image) || cfg.waitForRecap)
    requires IsUpdate(m.kind) && m.status == Ok && (m.sender == 0 || image.sender == 0 || m.sender == image.sender)
    requires image.seqNum + 1 < m.seqNum && m.seqNum != (image.seqNum + Stride(m)) % 0x1_0000_0000
    ensures var (c', out) := From(cfg, c, Arrivals(us + [image, m]));
      var cached, stale := Last(us, cfg.cacheSize), Held(cfg, c, us).setCacheStale;
      var whole := HoldsInOrder(cached, image.seqNum + 1, m.seqNum);
      var r := Fill(cached, image.seqNum + 1, m.seqNum);
      && out == [Delivery(image, Image)] + (Deliveries(if stale then MarkStale(r) else r, Filled)
        + [Delivery(if whole then m else m.(status := Stale), Direct)])
      && (forall k :: 0 <= k < |r| ==> r[k].seqNum == image.seqNum + 1 + k && r[k] in cached)
      && (whole <==> |r| == m.seqNum - image.seqNum - 1)
      && c'.seqNum == (if whole then m.seqNum else image.seqNum)
      && c'.state == (if whole then StateAfter(cfg, c, image) else WaitingForRecap) && c'.ring == []
  {
    hide *;
    var d := Held(cfg, c, us);
    var (c1, out1) := Handled(cfg, d, Arrive(image));
    ReadyToFill(cfg, c, us, image, m);
    UpdatesAreCached(cfg, c, us);
    FromNext(cfg, c, us, image, d, [], c1, out1);
    assert [] + out1 == out1;
    GapIsTried(cfg, c1, m);
    var (c2, out2) := Handled(cfg, c1, Arrive(m));
    FromNext(cfg, c, us + [image], m, c1, out1, c2, out2);
    assert us + [image] + [m] == us + [image, m];
  }
}
