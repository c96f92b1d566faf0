/** Any number of members that hear each other over a network which may lose, delay, repeat and
  * reorder heartbeats: whatever was sent can arrive anywhere, at any time, any number of times. */
module FaultToleranceGroup {
  import opened Common
  import opened FaultTolerance

  /** `home[i]` is the address that member `i` finds when it is activated; `takeovers` counts how
    * often a member became active. */
  datatype Net = Net(members: seq<Member>, home: seq<U32>, sent: set<Heartbeat>, takeovers: nat)

  datatype Event =
    | Start(i: nat) | Beats(i: nat) | Gets(i: nat, h: Heartbeat) | TimesOut(i: nat, buffer: seq<Heartbeat>)

  function InputOf(s: Net, e: Event): Input
    requires e.i < |s.home|
  {
    match e
    case Start(i) => Activate(s.home[i])
    case Beats(_) => Tick
    case Gets(_, h) => Receive(h)
    case TimesOut(_, buffer) => Expire(buffer)
  }

  predicate Enabled(s: Net, e: Event) {
    && e.i < |s.members| == |s.home|
    && Possible(s.members[e.i], InputOf(s, e))
    && (!e.Start? ==> s.members[e.i].started)
    && (e.Gets? ==> e.h in s.sent)
    && (e.TimesOut? ==> forall k :: 0 <= k < |e.buffer| ==> e.buffer[k] in s.sent)
  }

  function SetOf(hs: seq<Heartbeat>): set<Heartbeat> {
    set h | h in hs
  }

  function Next(s: Net, e: Event): Net
    requires Enabled(s, e)
  {
    var o := Handled(s.members[e.i], InputOf(s, e));
    var n := if TakesOver(s.members[e.i], InputOf(s, e)) then 1 else 0;
    Net(s.members[e.i := o.m], s.home, s.sent + SetOf(o.sent), s.takeovers + n)
  }

  // ---------- what every event keeps ----------

  /** A heartbeat that member `m` sent: its fixed parts, and an incarnation it has had. */
  predicate SentBy(m: Member, h: Heartbeat) {
    && m.started && h.group == m.group && h.cred.weight == m.weight && h.cred.ip == m.ip && h.cred.pid == m.pid
    && h.cred.incarnation <= m.incarnation
  }

  predicate MemberOk(s: Net, i: nat)
    requires i < |s.members| == |s.home|
  {
    var m := s.members[i];
    && Steady(m)
    && m.incarnation <= s.takeovers && m.next <= s.takeovers + 1
    && (if m.started then m.ip == s.home[i] else m.state == Unknown && m.incarnation == 0)
  }

  /** No two members have both the same address and the same process. */
  predicate Apart(s: Net)
    requires |s.members| == |s.home|
  {
    forall i: nat, j: nat :: i < j < |s.members| ==>
      s.home[i] != s.home[j] || s.members[i].pid != s.members[j].pid
  }

  ghost predicate Ok(s: Net) {
    && |s.members| == |s.home|
    && Apart(s)
    && (forall i: nat :: i < |s.members| ==> MemberOk(s, i))
    && (forall h :: h in s.sent ==> exists i: nat :: i < |s.members| && SentBy(s.members[i], h))
  }

  /** New members, none of them activated. */
  predicate Initial(s: Net) {
    && |s.members| == |s.home| && Apart(s) && s.sent == {} && s.takeovers == 0
    && forall i: nat :: i < |s.members| ==>
      s.members[i] == New(s.members[i].bridge, s.members[i].group, s.members[i].weight, s.members[i].pid)
  }

  lemma InitialOk(s: Net)
    requires Initial(s)
    ensures Ok(s)
  {
    forall i: nat | i < |s.members| ensures MemberOk(s, i) {
      NewIsSteady(s.members[i].bridge, s.members[i].group, s.members[i].weight, s.members[i].pid);
    }
  }

  /** Heartbeats on the way carry no more than the number of takeovers. */
  lemma SentAreBounded(s: Net, h: Heartbeat)
    requires Ok(s) && h in s.sent
    ensures h.cred.incarnation <= s.takeovers
  {
    var i: nat :| i < |s.members| && SentBy(s.members[i], h);
    assert MemberOk(s, i);
  }

  lemma {:induction false} DrainedIsBounded(m: Member, buffer: seq<Heartbeat>, most: nat)
    requires m.next <= most + 1 && most < MAX_U32
    requires forall k :: 0 <= k < |buffer| ==> buffer[k].cred.incarnation <= most
    ensures Drained(m, buffer).next <= most + 1
  {
    if buffer != [] {
      DrainedIsBounded(m, buffer[..|buffer| - 1], most);
    }
  }

  lemma {:induction false} DrainedIsSame(m: Member, buffer: seq<Heartbeat>)
    ensures var d := Drained(m, buffer);
      d.group == m.group && d.weight == m.weight && d.ip == m.ip && d.pid == m.pid && d.started == m.started &&
      d.incarnation == m.incarnation
  {
    if buffer != [] {
      DrainedIsSame(m, buffer[..|buffer| - 1]);
    }
  }

  /** One member's step, seen from the group. */
  lemma StepOk(s: Net, e: Event)
    requires Ok(s) && Enabled(s, e) && s.takeovers < MAX_U32
    ensures var m, o := s.members[e.i], Handled(s.members[e.i], InputOf(s, e));
      var t := Next(s, e).takeovers;
      && Steady(o.m) && o.m.incarnation >= m.incarnation
      && o.m.incarnation <= t && o.m.next <= t + 1
      && o.m.started && o.m.ip == s.home[e.i]
      && o.m.group == m.group && o.m.weight == m.weight && o.m.pid == m.pid
      && forall h :: h in o.sent ==> SentBy(o.m, h)
  {
    var m, i := s.members[e.i], InputOf(s, e);
    assert MemberOk(s, e.i);
    if e.Gets? {
      SentAreBounded(s, e.h);
    }
    if e.TimesOut? {
      forall k | 0 <= k < |e.buffer| ensures e.buffer[k].cred.incarnation <= s.takeovers {
        SentAreBounded(s, e.buffer[k]);
      }
      DrainedIsBounded(m, e.buffer, s.takeovers);
      DrainedIsSame(m, e.buffer);
      DrainedNeverActive(m, e.buffer);
    }
    InputKeeps(m, i);
  }

  /** While there have been fewer takeovers than a 32-bit incarnation can count, every event keeps
    * the invariant. */
  lemma NextOk(s: Net, e: Event)
    requires Ok(s) && Enabled(s, e) && s.takeovers < MAX_U32
    ensures Ok(Next(s, e))
  {
    StepOk(s, e);
    var t := Next(s, e);
    forall i: nat | i < |t.members| ensures MemberOk(t, i) {
      assert MemberOk(s, i);
    }
    forall h | h in t.sent ensures exists i: nat :: i < |t.members| && SentBy(t.members[i], h) {
      if h in s.sent {
        var i: nat :| i < |s.members| && SentBy(s.members[i], h);
        assert MemberOk(s, i);
        assert SentBy(t.members[i], h);
      } else {
        assert SentBy(t.members[e.i], h);
      }
    }
  }

  // ---------- runs ----------

  ghost predicate Runs(s: Net, es: seq<Event>)
    decreases |es|, 0
  {
    es == [] || (Runs(s, es[..|es| - 1]) && Enabled(Last(s, es[..|es| - 1]), es[|es| - 1]))
  }

  function Last(s: Net, es: seq<Event>): Net
    requires Runs(s, es)
    decreases |es|, 1
  {
    if es == [] then s else Next(Last(s, es[..|es| - 1]), es[|es| - 1])
  }

  lemma {:induction false} RunOk(s: Net, es: seq<Event>)
    requires Ok(s) && Runs(s, es) && Last(s, es).takeovers < MAX_U32
    ensures Ok(Last(s, es)) && s.takeovers <= Last(s, es).takeovers
  {
    if es != [] {
      RunOk(s, es[..|es| - 1]);
      NextOk(Last(s, es[..|es| - 1]), es[|es| - 1]);
    }
  }

  /** No heartbeat on the way claims more than its sender has now: its sender is the member with
    * its address and process. */
  lemma {:induction false} HeartbeatsNeverExceedSender(s: Net, es: seq<Event>, i: nat, h: Heartbeat)
    requires Initial(s) && Runs(s, es) && Last(s, es).takeovers < MAX_U32
    requires var t := Last(s, es);
      i < |t.members| && h in t.sent && h.cred.ip == t.home[i] && h.cred.pid == t.members[i].pid
    ensures var m := Last(s, es).members[i]; SentBy(m, h) && !Less(Cred(m), h.cred)
  {
    InitialOk(s);
    RunOk(s, es);
    SenderIs(Last(s, es), i, h);
  }

  lemma ApartEitherWay(s: Net, i: nat, j: nat)
    requires |s.members| == |s.home| && Apart(s) && i < |s.members| && j < |s.members|
    ensures i == j || s.home[i] != s.home[j] || s.members[i].pid != s.members[j].pid
  {
  }

  lemma SenderIs(t: Net, i: nat, h: Heartbeat)
    requires Ok(t) && i < |t.members| && h in t.sent && h.cred.ip == t.home[i] && h.cred.pid == t.members[i].pid
    ensures SentBy(t.members[i], h)
  {
    var j: nat :| j < |t.members| && SentBy(t.members[j], h);
    assert MemberOk(t, j);
    ApartEitherWay(t, i, j);
  }

  // ---------- the member with the greatest credentials ----------

  /** Better than every other started member of its group. */
  predicate Greatest(s: Net, i: nat)
    requires i < |s.members|
  {
    && s.members[i].started
    && forall j: nat ::
      j < |s.members| && j != i && s.members[j].started && s.members[j].group == s.members[i].group ==>
      Less(Cred(s.members[j]), Cred(s.members[i]))
  }

  /** The greatest member defers to nothing that can arrive. */
  lemma GreatestNeverDefers(s: Net, i: nat, h: Heartbeat)
    requires Ok(s) && i < |s.members| && Greatest(s, i) && h in s.sent
    ensures !Defers(s.members[i], h)
  {
    var j: nat :| j < |s.members| && SentBy(s.members[j], h);
    assert MemberOk(s, i) && MemberOk(s, j);
    if j != i && s.members[j].group == s.members[i].group {
      assert Less(Cred(s.members[j]), Cred(s.members[i]));
      NoBetterBelow(s.members[i], s.members[j], h);
    }
  }

  lemma NoBetterBelow(m: Member, sender: Member, h: Heartbeat)
    requires SentBy(sender, h) && Less(Cred(sender), Cred(m))
    ensures !Less(Cred(m), h.cred)
  {
  }

  lemma GreatestStepsUnmoved(s: Net, i: nat, e: Event)
    requires Ok(s) && i < |s.members| && Greatest(s, i) && Enabled(s, e) && s.members[i].state == Active
    ensures Next(s, e).members[i] == s.members[i]
  {
    assert MemberOk(s, i);
    if e.i == i && e.Gets? {
      GreatestNeverDefers(s, i, e.h);
    }
  }

  /** In every reachable state the greatest member, once active, is left as it is by every event:
    * nothing demotes it. */
  lemma {:induction false} GreatestIsNeverDemoted(s: Net, es: seq<Event>, i: nat, e: Event)
    requires Initial(s) && Runs(s, es) && Last(s, es).takeovers < MAX_U32
    requires var t := Last(s, es);
      i < |t.members| && Greatest(t, i) && t.members[i].state == Active && Enabled(t, e)
    ensures Next(Last(s, es), e).members[i] == Last(s, es).members[i]
  {
    InitialOk(s);
    RunOk(s, es);
    GreatestStepsUnmoved(Last(s, es), i, e);
  }

  // ---------- electing ----------

  predicate NoTimeouts(es: seq<Event>) {
    forall k :: 0 <= k < |es| ==> !es[k].TimesOut?
  }

  ghost predicate Delivered(es: seq<Event>, j: nat, h: Heartbeat) {
    exists k: nat :: k < |es| && es[k] == Gets(j, h)
  }

  lemma QuietStep(u: Net, e: Event, j: nat, h: Heartbeat)
    requires Ok(u) && Enabled(u, e) && !e.TimesOut? && j < |u.members|
    ensures var v := Next(u, e);
      && |v.members| == |u.members| && v.takeovers == u.takeovers
      && v.members[j].group == u.members[j].group
      && (u.members[j].started ==> v.members[j].started && Cred(v.members[j]) == Cred(u.members[j]))
      && (u.members[j].state != Active ==> v.members[j].state != Active)
      && (u.members[j].started && u.members[j].state == Standby ==> v.members[j].state == Standby)
      && (u.members[j].started && Defers(u.members[j], h) && e == Gets(j, h) ==> v.members[j].state == Standby)
  {
    assert MemberOk(u, e.i);
  }

  /** Without timeouts a member's credentials stay, it does not become active, and it stands by
    * once it has heard `h` if `h` is better. */
  lemma {:induction false} QuietRun(t: Net, es: seq<Event>, j: nat, h: Heartbeat)
    requires Ok(t) && Runs(t, es) && NoTimeouts(es) && j < |t.members| && t.takeovers < MAX_U32
    ensures var u := Last(t, es);
      && |u.members| == |t.members| && u.takeovers == t.takeovers
      && (t.members[j].started ==> u.members[j].started && Cred(u.members[j]) == Cred(t.members[j]))
      && u.members[j].group == t.members[j].group
      && (t.members[j].state != Active ==> u.members[j].state != Active)
      && (t.members[j].started && Defers(t.members[j], h) && Delivered(es, j, h) ==> u.members[j].state == Standby)
  {
    if es != [] {
      var p, e := es[..|es| - 1], es[|es| - 1];
      assert NoTimeouts(p);
      QuietRun(t, p, j, h);
      var u := Last(t, p);
      RunOk(t, p);
      QuietStep(u, e, j, h);
      assert Last(t, es) == Next(u, e);
      assert t.members[j].started && Defers(t.members[j], h) ==> Defers(u.members[j], h);
      hide Next;
      if Delivered(es, j, h) && e != Gets(j, h) {
        var k: nat :| k < |es| && es[k] == Gets(j, h);
        assert p[k] == Gets(j, h);
      }
    }
  }

  /** From any reachable state: once a heartbeat with the greatest member's present credentials has
    * reached every other started member of the group, with any other events but no timeout in
    * between, no other member of the group is active. */
  lemma {:induction false} HeartbeatSilencesOthers(s: Net, before: seq<Event>, i: nat, h: Heartbeat,
                                                   es: seq<Event>, j: nat)
    requires Initial(s) && Runs(s, before) && Last(s, before).takeovers < MAX_U32
    requires var t := Last(s, before);
      && i < |t.members| && Greatest(t, i) && h.cred == Cred(t.members[i]) && h.group == t.members[i].group
      && Runs(t, es) && NoTimeouts(es)
      && forall k: nat :: k < |t.members| && k != i && t.members[k].started && t.members[k].group == h.group ==>
        Delivered(es, k, h)
    requires var u := Last(Last(s, before), es); j < |u.members| && j != i && u.members[j].group == h.group
    ensures Last(Last(s, before), es).members[j].state != Active
  {
    InitialOk(s);
    RunOk(s, before);
    var t := Last(s, before);
    QuietLength(t, es);
    QuietRun(t, es, j, h);
    assert MemberOk(t, j) && MemberOk(t, i);
    if t.members[j].started {
      assert Delivered(es, j, h);
      ApartEitherWay(t, i, j);
      assert Defers(t.members[j], h);
    }
  }

  lemma {:induction false} QuietLength(t: Net, es: seq<Event>)
    requires Runs(t, es)
    ensures |Last(t, es).members| == |t.members|
  {
    if es != [] {
      QuietLength(t, es[..|es| - 1]);
    }
  }

  /** The heartbeat that a member sends now. */
  function PresentBeat(m: Member): Heartbeat {
    var code := match m.state case Standby => 0 case Active => 1 case Unknown => 99;
    Heartbeat(m.group, Credentials(m.weight, m.incarnation, m.ip, m.pid), if m.bridge then m.incarnation else code)
  }

  /** When its heartbeat timer fires, the group hears of the member as it is, and nothing else changes. */
  lemma BeatIsSent(s: Net, i: nat)
    requires Enabled(s, Beats(i))
    ensures Next(s, Beats(i)) == s.(sent := s.sent + {PresentBeat(s.members[i])})
  {
    assert SetOf([PresentBeat(s.members[i])]) == {PresentBeat(s.members[i])};
    assert s.members[i := s.members[i]] == s.members;
  }

  /** Events at which other members than `i` hear `h`. */
  predicate Hearings(es: seq<Event>, i: nat, h: Heartbeat) {
    forall k :: 0 <= k < |es| ==> es[k].Gets? && es[k].h == h && es[k].i != i
  }

  lemma OneHearing(s: Net, k: nat, i: nat, h: Heartbeat)
    requires Ok(s) && Enabled(s, Gets(k, h)) && k != i && i < |s.members|
    ensures var t := Next(s, Gets(k, h));
      && t.sent == s.sent && t.takeovers == s.takeovers && |t.members| == |s.members| && t.home == s.home
      && t.members[i] == s.members[i]
      && forall j: nat :: j < |s.members| ==> t.members[j].started == s.members[j].started
  {
    assert MemberOk(s, k);
    assert SetOf([]) == {} && s.sent + {} == s.sent;
  }

  lemma CanHear(s: Net, k: nat, h: Heartbeat)
    requires Ok(s) && k < |s.members| && s.members[k].started && h in s.sent
    ensures Enabled(s, Gets(k, h))
  {
  }

  /** A heartbeat on the way can be delivered to all other started members, one after the other. */
  lemma {:induction false} DeliverToAll(t: Net, i: nat, h: Heartbeat, n: nat) returns (es: seq<Event>)
    requires Ok(t) && t.takeovers < MAX_U32 && i < |t.members| && n <= |t.members| && h in t.sent
    ensures Runs(t, es) && Hearings(es, i, h)
    ensures forall k: nat :: k < n && k != i && t.members[k].started ==> Delivered(es, k, h)
    ensures var u := Last(t, es);
      && Ok(u) && u.sent == t.sent && u.takeovers == t.takeovers && |u.members| == |t.members| && u.home == t.home
      && u.members[i] == t.members[i]
      && forall j: nat :: j < |t.members| ==> u.members[j].started == t.members[j].started
  {
    hide Next;
    hide Ok;
    hide Enabled;
    if n == 0 {
      es := [];
    } else {
      var p := DeliverToAll(t, i, h, n - 1);
      if n - 1 == i || !t.members[n - 1].started {
        es := p;
      } else {
        var e := Gets(n - 1, h);
        es := p + [e];
        assert es[..|es| - 1] == p;
        CanHear(Last(t, p), n - 1, h);
        OneHearing(Last(t, p), n - 1, i, h);
        NextOk(Last(t, p), e);
        forall k: nat | k < n && k != i && t.members[k].started ensures Delivered(es, k, h) {
          StillDelivered(p, e, k, h);
        }
      }
    }
  }

  lemma StillDelivered(p: seq<Event>, e: Event, k: nat, h: Heartbeat)
    ensures Delivered(p, k, h) || e == Gets(k, h) ==> Delivered(p + [e], k, h)
  {
    var es := p + [e];
    assert es[|p|] == e;
    if j: nat :| j < |p| && p[j] == Gets(k, h) {
      assert es[j] == p[j];
    }
  }

  /** Nobody else in the group of member `i` is active. */
  predicate OnlyActive(u: Net, i: nat)
    requires i < |u.members|
  {
    forall j: nat :: j < |u.members| && j != i && u.members[j].group == u.members[i].group ==>
      u.members[j].state != Active
  }

  lemma {:induction false} RunsJoined(s: Net, a: seq<Event>, b: seq<Event>)
    requires Runs(s, a) && Runs(Last(s, a), b)
    ensures Runs(s, a + b) && Last(s, a + b) == Last(Last(s, a), b)
  {
    if b == [] {
      assert a + b == a;
    } else {
      assert (a + b)[..|a + b| - 1] == a + b[..|b| - 1];
      RunsJoined(s, a, b[..|b| - 1]);
    }
  }

  lemma OneEvent(s: Net, e: Event)
    requires Enabled(s, e)
    ensures Runs(s, [e]) && Last(s, [e]) == Next(s, e)
  {
    assert [e][..0] == [];
  }

  /** Once a heartbeat of the greatest member is on the way, its delivery to the others silences them. */
  lemma {:induction false} DeliverySilences(s: Net, before: seq<Event>, i: nat, h: Heartbeat)
      returns (es: seq<Event>)
    requires Initial(s) && Runs(s, before) && Last(s, before).takeovers < MAX_U32
    requires var t := Last(s, before);
      && i < |t.members| && Greatest(t, i) && h.cred == Cred(t.members[i]) && h.group == t.members[i].group
      && h in t.sent
    ensures var t := Last(s, before);
      && Runs(t, es) && Hearings(es, i, h)
      && |Last(t, es).members| == |t.members| && Last(t, es).members[i] == t.members[i]
      && OnlyActive(Last(t, es), i)
  {
    InitialOk(s);
    RunOk(s, before);
    var t := Last(s, before);
    es := DeliverToAll(t, i, h, |t.members|);
    var u := Last(t, es);
    forall j: nat | j < |u.members| && j != i && u.members[j].group == u.members[i].group
      ensures u.members[j].state != Active
    {
      HeartbeatSilencesOthers(s, before, i, h, es, j);
    }
  }

  /** From any reachable state in which the greatest member is active: when its heartbeat timer fires and
    * that heartbeat is delivered to the others, it is the only active member of its group. */
  lemma {:induction false} BeatSilencesOthers(s: Net, before: seq<Event>, i: nat) returns (es: seq<Event>)
    requires Initial(s) && Runs(s, before) && Last(s, before).takeovers < MAX_U32
    requires var t := Last(s, before); i < |t.members| && Greatest(t, i) && t.members[i].state == Active
    ensures var t := Last(s, before);
      && es != [] && es[0] == Beats(i) && Hearings(es[1..], i, PresentBeat(t.members[i]))
      && Runs(t, es) && |Last(t, es).members| == |t.members|
      && Last(t, es).members[i] == t.members[i] && OnlyActive(Last(t, es), i)
  {
    InitialOk(s);
    RunOk(s, before);
    var t := Last(s, before);
    hide Next;
    BeatIsSent(t, i);
    OneEvent(t, Beats(i));
    RunsJoined(s, before, [Beats(i)]);
    var gets := DeliverySilences(s, before + [Beats(i)], i, PresentBeat(t.members[i]));
    RunsJoined(t, [Beats(i)], gets);
    es := [Beats(i)] + gets;
  }

  /** The election: from any reachable state the greatest member can become the only active one of its
    * group, whoever was active before. If it stands by, its timeout with nothing waiting makes it
    * active, and it sends a heartbeat at once. */
  lemma {:induction false} GreatestCanBeElected(s: Net, before: seq<Event>, i: nat) returns (es: seq<Event>)
    requires Initial(s) && Runs(s, before) && Last(s, before).takeovers + 1 < MAX_U32
    requires var t := Last(s, before); i < |t.members| && Greatest(t, i)
    ensures var t := Last(s, before);
      && Runs(t, es) && |Last(t, es).members| == |t.members|
      && Last(t, es).members[i].state == Active && OnlyActive(Last(t, es), i)
  {
    var t := Last(s, before);
    if t.members[i].state == Active {
      es := BeatSilencesOthers(s, before, i);
    } else {
      InitialOk(s);
      RunOk(s, before);
      var e := TimesOut(i, []);
      var h := TimeoutAlone(t, i);
      OneEvent(t, e);
      RunsJoined(s, before, [e]);
      var gets := DeliverySilences(s, before + [e], i, h);
      RunsJoined(t, [e], gets);
      es := [e] + gets;
    }
  }

  lemma TimeoutAlone(t: Net, i: nat) returns (h: Heartbeat)
    requires Ok(t) && i < |t.members| && Greatest(t, i) && t.members[i].state != Active
    ensures Enabled(t, TimesOut(i, []))
    ensures var u := Next(t, TimesOut(i, []));
      && |u.members| == |t.members| && u.members[i].state == Active && u.takeovers == t.takeovers + 1
      && Greatest(u, i) && h.cred == Cred(u.members[i]) && h.group == u.members[i].group && h in u.sent
  {
    var m := t.members[i];
    assert MemberOk(t, i);
    TimeoutTakesOverExactlyWhenAlone(m, []);
    h := Expired(m, []).sent[0];
    var u := Next(t, TimesOut(i, []));
    assert h in SetOf(Expired(m, []).sent);
    forall j: nat | j < |u.members| && j != i && u.members[j].started && u.members[j].group == m.group
      ensures Less(Cred(u.members[j]), Cred(u.members[i]))
    {
      assert Less(Cred(t.members[j]), Cred(m));
    }
  }
}
