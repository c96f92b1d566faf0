/** A fault-tolerance member: what it sends and how its state follows the heartbeats it hears. */
module FaultTolerance {

  import opened Common

  const MAX_U32: U32 := 0xFFFF_FFFF

  datatype FtState = Standby | Active | Unknown

  /** What decides between two members, most significant first. */
  datatype Credentials = Credentials(weight: U32, incarnation: U32, ip: U32, pid: int)

  /** `primary` is sent along and read by nobody. */
  datatype Heartbeat = Heartbeat(group: string, cred: Credentials, primary: U32)

  /** MAMA_FT_STATE_... */
  function Code(s: FtState): U32 {
    match s
    case Standby => 0
    case Active => 1
    case Unknown => 99
  }

  /** A member between two callbacks. `timer` says whether the timeout timer exists, `bridge` that it
    * sends over the message bridge. */
  datatype Member = Member(
    bridge: bool, group: string, weight: U32, ip: U32, pid: int,
    state: FtState, incarnation: U32, next: U32, timer: bool, started: bool)

  /** A member and the heartbeats it has just sent. */
  datatype Outcome = Outcome(m: Member, sent: seq<Heartbeat>)

  function Cred(m: Member): Credentials {
    Credentials(m.weight, m.incarnation, m.ip, m.pid)
  }

  /** Over the bridge the incarnation takes the place of the state. */
  function Beat(m: Member): Heartbeat {
    Heartbeat(m.group, Cred(m), if m.bridge then m.incarnation else Code(m.state))
  }

  /** mamaBetterCredentials: is `b` better than `a`? */
  predicate Less(a: Credentials, b: Credentials) {
    if b.weight > a.weight then true
    else if b.weight == a.weight && b.incarnation > a.incarnation then true
    else if b.weight == a.weight && b.incarnation == a.incarnation && b.ip > a.ip then true
    else b.weight == a.weight && b.incarnation == a.incarnation && b.ip == a.ip && b.pid > a.pid
  }

  /** The four numbers in order of significance. */
  function Ranks(c: Credentials): seq<int> {
    [c.weight, c.incarnation, c.ip, c.pid]
  }

  /** Dictionary order of two lists of the same length. */
  predicate Before(a: seq<int>, b: seq<int>)
    requires |a| == |b|
  {
    a != [] && (a[0] < b[0] || (a[0] == b[0] && Before(a[1..], b[1..])))
  }

  /** The comparison is the dictionary order of (weight, incarnation, address, process). */
  lemma {:induction false} LessIsDictionaryOrder(a: Credentials, b: Credentials)
    ensures Less(a, b) <==> Before(Ranks(a), Ranks(b))
  {
    var s, t := Ranks(a), Ranks(b);
    assert s[1..] == [a.incarnation, a.ip, a.pid] && t[1..] == [b.incarnation, b.ip, b.pid];
    assert s[1..][1..] == [a.ip, a.pid] && t[1..][1..] == [b.ip, b.pid];
    assert s[1..][1..][1..] == [a.pid] && t[1..][1..][1..] == [b.pid];
    assert Before(s[1..][1..][1..], t[1..][1..][1..]) <==> a.pid < b.pid;
    assert Before(s[1..][1..], t[1..][1..]) <==> a.ip < b.ip || (a.ip == b.ip && a.pid < b.pid);
  }

  /** A strict order, and total between members that differ in address or process. */
  lemma LessIsStrictOrder(a: Credentials, b: Credentials, c: Credentials)
    ensures !Less(a, a)
    ensures Less(a, b) ==> !Less(b, a)
    ensures Less(a, b) && Less(b, c) ==> Less(a, c)
    ensures (a.ip != b.ip || a.pid != b.pid) ==> Less(a, b) || Less(b, a)
  {
  }

  // ---------- what the callbacks do ----------

  /** invokeStateChange */
  function Changed(m: Member, s: FtState): Outcome {
    if m.state == s then Outcome(m, [])
    else if s == Active then
      var m1 := m.(incarnation := m.next);
      Outcome(m1.(timer := false, state := s), [Beat(m1)])
    else Outcome(m.(timer := true, state := s), [])
  }

  /** A heartbeat of another member of the group with better credentials. */
  predicate Defers(m: Member, h: Heartbeat) {
    && h.group == m.group
    && !(h.cred.pid == m.pid && h.cred.ip == m.ip)
    && Less(Cred(m), h.cred)
  }

  function NextIncarnation(next: U32, heard: U32): U32 {
    if heard >= next then (heard + 1) % 0x1_0000_0000 else next
  }

  /** mamaCheckHeartbeat */
  function Heard(m: Member, h: Heartbeat): Member {
    if Defers(m, h) then Changed(m.(next := NextIncarnation(m.next, h.cred.incarnation)), Standby).m else m
  }

  /** The receive buffer is read until it is empty. */
  function Drained(m: Member, buffer: seq<Heartbeat>): Member {
    if buffer == [] then m
    else Heard(Drained(m, buffer[..|buffer| - 1]), buffer[|buffer| - 1])
  }

  /** Some heartbeat of the buffer was one to defer to when its turn came. */
  predicate FoundHeartbeat(m: Member, buffer: seq<Heartbeat>) {
    buffer != [] && (
      || FoundHeartbeat(m, buffer[..|buffer| - 1])
      || Defers(Drained(m, buffer[..|buffer| - 1]), buffer[|buffer| - 1]))
  }

  /** ftTimeoutTimerCb */
  function Expired(m: Member, buffer: seq<Heartbeat>): Outcome {
    if FoundHeartbeat(m, buffer) then Outcome(Drained(m, buffer), []) else Changed(Drained(m, buffer), Active)
  }

  /** mamaFtMember_activate of a member that is not started */
  function Activated(m: Member, ip: U32): Member {
    m.(ip := ip, next := 1, timer := true, started := true)
  }

  /** mamaFtMember_setup of a new member */
  function New(bridge: bool, group: string, weight: U32, pid: int): Member {
    Member(bridge, group, weight, 0, pid, Unknown, 0, 0, false, false)
  }

  datatype Input = Activate(ip: U32) | Tick | Receive(h: Heartbeat) | Expire(buffer: seq<Heartbeat>)

  /** A timeout needs a timer; all but the arrival of a heartbeat over the bridge and what follows
    * from it needs a started member, and only the first activation is considered. */
  predicate Possible(m: Member, i: Input) {
    match i
    case Activate(_) => !m.started
    case Tick => m.started
    case Receive(_) => true
    case Expire(_) => m.timer
  }

  function Handled(m: Member, i: Input): Outcome {
    match i
    case Activate(ip) => Outcome(Activated(m, ip), [])
    case Tick => Outcome(m, [Beat(m)])
    case Receive(h) => Outcome(Heard(m, h), [])
    case Expire(buffer) => Expired(m, buffer)
  }

  // ---------- one member among any others ----------

  /** The member has a timeout timer exactly when it is not active. */
  predicate TimerFits(m: Member) {
    && (m.started ==> (m.timer <==> m.state != Active))
    && (!m.started ==> (m.timer <==> m.state == Standby))
  }

  predicate Steady(m: Member) {
    TimerFits(m) && m.incarnation <= m.next
  }

  /** No incarnation that cannot be surpassed. */
  predicate Surpassable(i: Input) {
    match i
    case Receive(h) => h.cred.incarnation < MAX_U32
    case Expire(buffer) => forall k :: 0 <= k < |buffer| ==> buffer[k].cred.incarnation < MAX_U32
    case _ => true
  }

  lemma {:induction false} DrainedKeeps(m: Member, buffer: seq<Heartbeat>)
    requires Steady(m) && Surpassable(Expire(buffer))
    ensures var d := Drained(m, buffer);
      Steady(d) && d.incarnation == m.incarnation && d.next >= m.next && d.started == m.started &&
      (m.timer ==> d.timer)
  {
    if buffer != [] {
      DrainedKeeps(m, buffer[..|buffer| - 1]);
    }
  }

  /** Activation keeps a steady member steady exactly when it has not become active, nor been
    * beyond its first incarnation, before. */
  lemma ActivationKeepsExactlyWhen(m: Member, ip: U32)
    requires Steady(m) && !m.started
    ensures Steady(Activated(m, ip)) <==> m.state != Active && m.incarnation <= 1
  {
  }

  /** A member over the bridge that hears of a member before it is activated can become active
    * first, and then has both a timer and the active state. */
  lemma {:induction false} EarlyTakeover()
    ensures var h := Heartbeat("g", Credentials(1, 5, 1, 1), 5);
      var m := Expired(Heard(New(true, "g", 1, 2), h), []).m;
      Steady(m) && m.state == Active && m.incarnation == 6 && !Steady(Activated(m, 9))
  {
    var h := Heartbeat("g", Credentials(1, 5, 1, 1), 5);
    var d := Heard(New(true, "g", 1, 2), h);
    assert Drained(d, []) == d && !FoundHeartbeat(d, []);
  }

  lemma InputKeeps(m: Member, i: Input)
    requires Steady(m) && Possible(m, i) && Surpassable(i)
    requires i.Activate? ==> m.state != Active && m.incarnation <= 1
    ensures var m' := Handled(m, i).m;
      Steady(m') && m'.incarnation >= m.incarnation && (!i.Activate? ==> m'.next >= m.next)
  {
    if i.Expire? {
      DrainedKeeps(m, i.buffer);
    }
  }

  // ---------- runs ----------

  function After(m: Member, inputs: seq<Input>): Member {
    if inputs == [] then m else Handled(After(m, inputs[..|inputs| - 1]), inputs[|inputs| - 1]).m
  }

  /** A run up to the first deactivation. */
  predicate IsRun(m: Member, inputs: seq<Input>) {
    inputs == [] || (
      && IsRun(m, inputs[..|inputs| - 1])
      && Possible(After(m, inputs[..|inputs| - 1]), inputs[|inputs| - 1]))
  }

  lemma {:induction false} DrainedFits(m: Member, buffer: seq<Heartbeat>)
    ensures var d := Drained(m, buffer);
      && Cred(d) == Cred(m) && d.group == m.group && d.started == m.started
      && (TimerFits(m) ==> TimerFits(d)) && (m.timer ==> d.timer)
  {
    if buffer != [] {
      DrainedFits(m, buffer[..|buffer| - 1]);
    }
  }

  predicate AlwaysFits(m: Member, inputs: seq<Input>) {
    TimerFits(After(m, inputs)) && (inputs == [] || AlwaysFits(m, inputs[..|inputs| - 1]))
  }

  /** The member is not active when it is activated. */
  predicate ActivatedIdle(m: Member, inputs: seq<Input>) {
    inputs == [] || (
      && ActivatedIdle(m, inputs[..|inputs| - 1])
      && (inputs[|inputs| - 1].Activate? ==> After(m, inputs[..|inputs| - 1]).state != Active))
  }

  /** In a run it has a timer exactly when it is not active, throughout, exactly when it is not active
    * at its activation. */
  lemma {:induction false} TimerFitsExactlyWhen(m: Member, inputs: seq<Input>)
    requires TimerFits(m) && IsRun(m, inputs)
    ensures AlwaysFits(m, inputs) <==> ActivatedIdle(m, inputs)
  {
    if inputs != [] {
      TimerFitsExactlyWhen(m, inputs[..|inputs| - 1]);
      if inputs[|inputs| - 1].Expire? {
        DrainedFits(After(m, inputs[..|inputs| - 1]), inputs[|inputs| - 1].buffer);
      }
    }
  }

  /** Each heartbeat to defer to that carries the last incarnation, which makes the next one wrap
    * round to 0, finds the member at incarnation 0 or is followed by another heartbeat to defer to
    * that raises the next one again. */
  ghost predicate Recovers(m: Member, buffer: seq<Heartbeat>) {
    m.incarnation == 0 ||
    forall j: nat :: j < |buffer| && Defers(m, buffer[j]) && buffer[j].cred.incarnation == MAX_U32 ==>
      Raised(m, buffer, j)
  }

  ghost predicate Raised(m: Member, buffer: seq<Heartbeat>, j: nat) {
    exists k: nat :: j < k < |buffer| && Defers(m, buffer[k]) &&
      m.incarnation <= buffer[k].cred.incarnation + 1 <= MAX_U32
  }

  lemma RecoversNext(m: Member, p: seq<Heartbeat>, h: Heartbeat)
    ensures !Defers(m, h) ==> (Recovers(m, p + [h]) <==> Recovers(m, p))
    ensures Defers(m, h) && h.cred.incarnation == MAX_U32 ==> (Recovers(m, p + [h]) <==> m.incarnation == 0)
    ensures Defers(m, h) && h.cred.incarnation < MAX_U32 ==>
      (Recovers(m, p + [h]) <==> Recovers(m, p) || m.incarnation <= h.cred.incarnation + 1)
  {
    var buffer := p + [h];
    assert forall k :: 0 <= k < |p| ==> buffer[k] == p[k];
    assert buffer[|p|] == h;
    forall j: nat | j < |p|
      ensures Raised(m, p, j) ==> Raised(m, buffer, j)
      ensures Raised(m, buffer, j) && !(Defers(m, h) && m.incarnation <= h.cred.incarnation + 1 <= MAX_U32) ==>
        Raised(m, p, j)
      ensures Defers(m, h) && m.incarnation <= h.cred.incarnation + 1 <= MAX_U32 ==> Raised(m, buffer, j)
    {
      if Raised(m, p, j) {
        var k: nat :| j < k < |p| && Defers(m, p[k]) && m.incarnation <= p[k].cred.incarnation + 1 <= MAX_U32;
        assert buffer[k] == p[k];
      }
      if Raised(m, buffer, j) {
        var k: nat :| j < k < |buffer| && Defers(m, buffer[k]) &&
          m.incarnation <= buffer[k].cred.incarnation + 1 <= MAX_U32;
        assert k < |p| ==> p[k] == buffer[k];
      }
    }
    if m.incarnation != 0 && Defers(m, h) && h.cred.incarnation == MAX_U32 {
      assert !Raised(m, buffer, |p|);
    }
    if Recovers(m, buffer) {
      forall j: nat | j < |p| && Defers(m, p[j]) && p[j].cred.incarnation == MAX_U32
        ensures m.incarnation != 0 ==> Raised(m, buffer, j)
      {
        assert buffer[j] == p[j];
      }
    }
  }

  /** Reading the buffer keeps the incarnation within the next one exactly then. */
  lemma {:induction false} DrainedSteadyExactlyWhen(m: Member, buffer: seq<Heartbeat>)
    requires Steady(m)
    ensures Steady(Drained(m, buffer)) <==> Recovers(m, buffer)
  {
    DrainedFits(m, buffer);
    if buffer != [] {
      var p, h := buffer[..|buffer| - 1], buffer[|buffer| - 1];
      DrainedSteadyExactlyWhen(m, p);
      DrainedFits(m, p);
      RecoversNext(m, p, h);
      assert p + [h] == buffer;
      assert Defers(Drained(m, p), h) <==> Defers(m, h);
    }
  }

  /** The inputs that a steady member stays steady over. */
  ghost predicate Withstands(m: Member, i: Input) {
    match i
    case Activate(_) => m.state != Active && m.incarnation <= 1
    case Tick => true
    case Receive(h) => Recovers(m, [h])
    case Expire(buffer) => Recovers(m, buffer)
  }

  lemma SteadyStepExactlyWhen(m: Member, i: Input)
    requires Steady(m) && Possible(m, i)
    ensures Steady(Handled(m, i).m) <==> Withstands(m, i)
  {
    match i {
      case Receive(h) =>
        assert Drained(m, [h]) == Heard(m, h) by {
          assert [h][..0] == [];
        }
        DrainedSteadyExactlyWhen(m, [h]);
      case Expire(buffer) =>
        DrainedSteadyExactlyWhen(m, buffer);
        DrainedFits(m, buffer);
        DrainedNeverActive(m, buffer);
        FoundExactlyWhenSomeBetter(m, buffer);
      case _ =>
    }
  }

  predicate AlwaysSteady(m: Member, inputs: seq<Input>) {
    Steady(After(m, inputs)) && (inputs == [] || AlwaysSteady(m, inputs[..|inputs| - 1]))
  }

  ghost predicate WithstandsAll(m: Member, inputs: seq<Input>) {
    inputs == [] || (
      && WithstandsAll(m, inputs[..|inputs| - 1])
      && Withstands(After(m, inputs[..|inputs| - 1]), inputs[|inputs| - 1]))
  }

  /** In any run of a steady member, as a new one is, it has a timer exactly when it is not active and
    * its incarnation stays within the next one, throughout, exactly when it is not active or beyond
    * its first incarnation at its activation, and when no heartbeat with the last incarnation of all
    * makes the next one wrap round for good. */
  lemma {:induction false} SteadyExactlyWhen(m: Member, inputs: seq<Input>)
    requires Steady(m) && IsRun(m, inputs)
    ensures AlwaysSteady(m, inputs) <==> WithstandsAll(m, inputs)
  {
    if inputs != [] {
      var p := inputs[..|inputs| - 1];
      SteadyExactlyWhen(m, p);
      if AlwaysSteady(m, p) {
        SteadyStepExactlyWhen(After(m, p), inputs[|inputs| - 1]);
      }
    }
  }

  lemma NewIsSteady(bridge: bool, group: string, weight: U32, pid: int)
    ensures Steady(New(bridge, group, weight, pid))
  {
  }

  // ---------- what a member defers to ----------

  /** The heartbeats of the buffer that the member defers to. */
  function Better(m: Member, buffer: seq<Heartbeat>): (r: seq<Heartbeat>)
    ensures forall h :: h in r <==> h in buffer && Defers(m, h)
  {
    if buffer == [] then []
    else
      var p, h := buffer[..|buffer| - 1], buffer[|buffer| - 1];
      assert buffer == p + [h];
      Better(m, p) + if Defers(m, h) then [h] else []
  }

  function HeededNow(m: Member, i: Input): seq<Heartbeat> {
    match i
    case Receive(h) => Better(m, [h])
    case Expire(buffer) => Better(m, buffer)
    case _ => []
  }

  /** All that the member defers to in a run, in order. */
  function Heeded(m: Member, inputs: seq<Input>): seq<Heartbeat> {
    if inputs == [] then []
    else
      var p := inputs[..|inputs| - 1];
      Heeded(m, p) + HeededNow(After(m, p), inputs[|inputs| - 1])
  }

  /** What the heartbeats make of the next incarnation. */
  function NextAfter(next: U32, hs: seq<Heartbeat>): U32 {
    if hs == [] then next else NextIncarnation(NextAfter(next, hs[..|hs| - 1]), hs[|hs| - 1].cred.incarnation)
  }

  lemma {:induction false} NextAfterJoined(next: U32, a: seq<Heartbeat>, b: seq<Heartbeat>)
    ensures NextAfter(next, a + b) == NextAfter(NextAfter(next, a), b)
  {
    if b == [] {
      assert a + b == a;
    } else {
      assert (a + b)[..|a + b| - 1] == a + b[..|b| - 1];
      NextAfterJoined(next, a, b[..|b| - 1]);
    }
  }

  lemma {:induction false} DrainedNext(m: Member, buffer: seq<Heartbeat>)
    ensures Drained(m, buffer).next == NextAfter(m.next, Better(m, buffer))
  {
    if buffer != [] {
      var p, h := buffer[..|buffer| - 1], buffer[|buffer| - 1];
      DrainedNext(m, p);
      DrainedFits(m, p);
      assert Defers(Drained(m, p), h) <==> Defers(m, h);
      if Defers(m, h) {
        assert (Better(m, p) + [h])[..|Better(m, p)|] == Better(m, p);
      } else {
        assert Better(m, p) + [] == Better(m, p);
      }
    }
  }

  lemma StepNext(m: Member, i: Input)
    requires m.started && Possible(m, i)
    ensures Handled(m, i).m.next == NextAfter(m.next, HeededNow(m, i)) && Handled(m, i).m.started
  {
    match i {
      case Receive(h) =>
        assert Drained(m, [h]) == Heard(m, h) by {
          assert [h][..0] == [];
        }
        DrainedNext(m, [h]);
        DrainedFits(m, [h]);
      case Expire(buffer) =>
        DrainedNext(m, buffer);
        DrainedFits(m, buffer);
      case _ =>
    }
  }

  /** Once the member is started, its next incarnation follows from what it deferred to since. */
  lemma {:induction false} RunNext(m: Member, inputs: seq<Input>)
    requires m.started && IsRun(m, inputs)
    ensures After(m, inputs).started && After(m, inputs).next == NextAfter(m.next, Heeded(m, inputs))
  {
    if inputs != [] {
      var p := inputs[..|inputs| - 1];
      RunNext(m, p);
      StepNext(After(m, p), inputs[|inputs| - 1]);
      NextAfterJoined(m.next, Heeded(m, p), HeededNow(After(m, p), inputs[|inputs| - 1]));
    }
  }

  lemma {:induction false} NextGrows(next: U32, hs: seq<Heartbeat>)
    requires forall h <- hs :: h.cred.incarnation < MAX_U32
    ensures NextAfter(next, hs) >= next
  {
    if hs != [] {
      NextGrows(next, hs[..|hs| - 1]);
    }
  }

  lemma StepIncarnation(m: Member, i: Input)
    requires Steady(m)
    ensures Handled(m, i).m.incarnation >= m.incarnation
  {
    if i.Expire? {
      DrainedFits(m, i.buffer);
      DrainedNeverActive(m, i.buffer);
    }
  }

  /** Along a run the incarnation never goes down while the member is steady, nor, once it is started,
    * does the next one unless it defers to a heartbeat with the last incarnation of all. */
  lemma {:induction false} IncarnationGrows(m: Member, inputs: seq<Input>)
    requires Steady(m) && IsRun(m, inputs) && WithstandsAll(m, inputs)
    ensures m.incarnation <= After(m, inputs).incarnation
    ensures m.started && (forall h <- Heeded(m, inputs) :: h.cred.incarnation < MAX_U32) ==>
      m.next <= After(m, inputs).next
  {
    if m.started {
      RunNext(m, inputs);
      if forall h <- Heeded(m, inputs) :: h.cred.incarnation < MAX_U32 {
        NextGrows(m.next, Heeded(m, inputs));
      }
    }
    if inputs != [] {
      var p := inputs[..|inputs| - 1];
      IncarnationGrows(m, p);
      SteadyExactlyWhen(m, p);
      StepIncarnation(After(m, p), inputs[|inputs| - 1]);
    }
  }

  /** The next incarnation passes the one deferred to unless that is the last of all: then the
    * addition wraps round to 0. */
  lemma SurpassedExactlyWhenNotLast(m: Member, h: Heartbeat)
    requires Defers(m, h)
    ensures Heard(m, h).next > h.cred.incarnation <==> h.cred.incarnation != MAX_U32
    ensures h.cred.incarnation == MAX_U32 ==> Heard(m, h).next == 0
  {
  }

  /** A takeover: the step in which a member becomes active. */
  predicate TakesOver(m: Member, i: Input) {
    m.state != Active && Handled(m, i).m.state == Active
  }

  lemma {:induction false} DrainedNeverActive(m: Member, buffer: seq<Heartbeat>)
    ensures Drained(m, buffer).state == Active ==> m.state == Active && Drained(m, buffer) == m
    ensures FoundHeartbeat(m, buffer) ==> Drained(m, buffer).state == Standby
    ensures !FoundHeartbeat(m, buffer) ==> Drained(m, buffer) == m
  {
    if buffer != [] {
      DrainedNeverActive(m, buffer[..|buffer| - 1]);
    }
  }

  /** A timeout makes the member active exactly when no heartbeat to defer to was waiting; then it
    * sends one at once, under its new incarnation. */
  lemma TimeoutTakesOverExactlyWhenAlone(m: Member, buffer: seq<Heartbeat>)
    requires m.state != Active
    ensures TakesOver(m, Expire(buffer)) <==> forall k: nat :: k < |buffer| ==> !Defers(m, buffer[k])
    ensures TakesOver(m, Expire(buffer)) ==>
      Expired(m, buffer).m == m.(state := Active, incarnation := m.next, timer := false) &&
      Expired(m, buffer).sent == [Heartbeat(m.group, Credentials(m.weight, m.next, m.ip, m.pid),
        if m.bridge then m.next else if m.state == Standby then 0 else 99)]
    ensures !TakesOver(m, Expire(buffer)) ==> Expired(m, buffer).m.state == Standby && Expired(m, buffer).sent == []
  {
    DrainedNeverActive(m, buffer);
    FoundExactlyWhenSomeBetter(m, buffer);
  }

  lemma {:induction false} FoundExactlyWhenSomeBetter(m: Member, buffer: seq<Heartbeat>)
    ensures FoundHeartbeat(m, buffer) <==> exists k: nat :: k < |buffer| && Defers(m, buffer[k])
  {
    if buffer != [] {
      var shorter := buffer[..|buffer| - 1];
      FoundExactlyWhenSomeBetter(m, shorter);
      DrainedNeverActive(m, shorter);
      if FoundHeartbeat(m, buffer) {
        if FoundHeartbeat(m, shorter) {
          var k: nat :| k < |shorter| && Defers(m, shorter[k]);
          assert buffer[k] == shorter[k];
        }
      }
      if k: nat :| k < |buffer| && Defers(m, buffer[k]) {
        assert k < |shorter| ==> shorter[k] == buffer[k];
      }
    }
  }

  /** Each heartbeat from number `p` on that carries the last incarnation is followed by one that
    * carries at least the incarnation of number `p`, but not the last. */
  ghost predicate Surpassed(hs: seq<Heartbeat>, p: nat)
    requires p < |hs|
  {
    forall j :: p <= j < |hs| && hs[j].cred.incarnation == MAX_U32 ==> Resumed(hs, j, hs[p].cred.incarnation)
  }

  ghost predicate Resumed(hs: seq<Heartbeat>, j: nat, least: U32) {
    exists k :: j < k < |hs| && least <= hs[k].cred.incarnation < MAX_U32
  }

  lemma ResumedNext(hs: seq<Heartbeat>, h: Heartbeat, j: nat, least: U32)
    requires j < |hs|
    ensures Resumed(hs + [h], j, least) <==> Resumed(hs, j, least) || least <= h.cred.incarnation < MAX_U32
  {
    var more := hs + [h];
    assert forall k :: 0 <= k < |hs| ==> more[k] == hs[k];
    assert more[|hs|] == h;
    if Resumed(hs, j, least) {
      var k :| j < k < |hs| && least <= hs[k].cred.incarnation < MAX_U32;
      assert more[k] == hs[k];
    }
    if Resumed(more, j, least) {
      var k :| j < k < |more| && least <= more[k].cred.incarnation < MAX_U32;
      assert k < |hs| ==> hs[k] == more[k];
    }
  }

  lemma {:induction false} NextSurpassesExactlyWhen(next: U32, hs: seq<Heartbeat>, p: nat)
    requires p < |hs|
    ensures NextAfter(next, hs) > hs[p].cred.incarnation <==> Surpassed(hs, p)
  {
    var q, h := hs[..|hs| - 1], hs[|hs| - 1];
    assert hs == q + [h];
    if p < |q| {
      NextSurpassesExactlyWhen(next, q, p);
      forall j: nat | j < |q| ensures Resumed(hs, j, hs[p].cred.incarnation) <==>
        Resumed(q, j, hs[p].cred.incarnation) || hs[p].cred.incarnation <= h.cred.incarnation < MAX_U32
      {
        ResumedNext(q, h, j, hs[p].cred.incarnation);
      }
      assert forall j :: 0 <= j < |q| ==> hs[j] == q[j];
    }
    if h.cred.incarnation == MAX_U32 {
      assert !Resumed(hs, |q|, hs[p].cred.incarnation);
    }
  }

  /** The incarnation of a takeover exceeds that of heartbeat number `p` of those deferred to since
    * activation exactly when the next incarnation did not wrap round for good after it. */
  lemma {:induction false} TakeoverSurpassesExactlyWhen(m: Member, inputs: seq<Input>, last: Input, p: nat)
    requires m.started && IsRun(m, inputs) && TakesOver(After(m, inputs), last) && p < |Heeded(m, inputs)|
    ensures Handled(After(m, inputs), last).m.incarnation > Heeded(m, inputs)[p].cred.incarnation <==>
      Surpassed(Heeded(m, inputs), p)
  {
    RunNext(m, inputs);
    TimeoutTakesOver(After(m, inputs), last);
    NextSurpassesExactlyWhen(m.next, Heeded(m, inputs), p);
  }

  /** So it exceeds them all unless one of them carried the last incarnation of all. */
  lemma {:induction false} TakeoverSurpassesAllHeeded(m: Member, inputs: seq<Input>, last: Input, h: Heartbeat)
    requires m.started && IsRun(m, inputs) && TakesOver(After(m, inputs), last) && h in Heeded(m, inputs)
    requires forall g <- Heeded(m, inputs) :: g.cred.incarnation < MAX_U32
    ensures Handled(After(m, inputs), last).m.incarnation > h.cred.incarnation
  {
    var hs := Heeded(m, inputs);
    var p :| 0 <= p < |hs| && hs[p] == h;
    assert forall j :: 0 <= j < |hs| ==> hs[j] in hs;
    TakeoverSurpassesExactlyWhen(m, inputs, last, p);
  }

  lemma TimeoutTakesOver(m: Member, i: Input)
    requires TakesOver(m, i)
    ensures i.Expire? && Handled(m, i).m.incarnation == m.next
  {
    if i.Expire? {
      TimeoutTakesOverExactlyWhenAlone(m, i.buffer);
    }
  }
}
