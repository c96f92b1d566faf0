/** The data-quality protocol of one subscription as functions on values: what each message does
  * to the context and what reaches the client. */
module DataQuality {

  // mama_seqnum_t
  type SeqNum = n: int | 0 <= n < 0x1_0000_0000

  /** Unsigned 32-bit addition. */
  function Plus(a: SeqNum, b: nat): SeqNum {
    (a + b) % 0x1_0000_0000
  }

  /** The message types that the code tells apart. */
  datatype Kind =
    | Initial | BookInitial | Recap | BookRecap
    | Snapshot | BookSnapshot | DictSnapshot
    | Update | Quote | Trade | SecStatus | BookUpdate
    | Refresh | Delete | Expire | NotPermissionedKind | NotFoundKind | UnknownKind
    | MiscKind | OtherKind

  datatype Status =
    | Ok | LineDown | NoSubscribers | BadSymbol | Expired | Timeout | Misc | Stale | PlatformStatus
    | NotEntitled | NotFound | PossiblyStale | NotPermissioned | TopicChange | BandwidthExceeded
    | Duplicate | UnknownStatus

  /** `sender` is 0 and `conflate` 1 when the message has no such field; `last` says that an image
    * is not split into parts or that this is its last part. */
  datatype Msg = Msg(kind: Kind, seqNum: SeqNum, sender: nat, conflate: nat, status: Status, last: bool)

  datatype DqState =
    | OkState | NotEstablished | WaitingForRecap | PossiblyStaleState | DuplicateState | StaleNoRecap
    | WaitingForRecapAfterFt

  /** Settings of the transport and the subscription. */
  datatype Config = Config(
    onInitial: bool, ignoreDups: bool, waitForRecap: bool, preRecapCache: bool, cacheSize: nat)

  /** The context, the strategy's flag and the subject's fields. `ring` is the cache in order of
    * arrival, `idx` the slot for the next message. */
  datatype Ctx = Ctx(
    seqNum: SeqNum, state: DqState, sender: nat, doNotForward: bool,
    ring: seq<Msg>, idx: nat, setCacheStale: bool,
    tryToFillGap: bool,
    initialArrived: bool, imageCount: nat, expectingInitial: bool)

  datatype How = Image | Direct | Replayed | Filled

  /** One call of the client's message callback. */
  datatype Delivery = Delivery(msg: Msg, how: How)

  predicate IsImage(k: Kind) {
    || k.Initial? || k.Snapshot? || k.DictSnapshot? || k.Recap? || k.BookInitial? || k.BookSnapshot?
    || k.BookRecap?
  }

  predicate IsInitial(k: Kind) {
    k == Initial || k == BookInitial
  }

  predicate IsRecap(k: Kind) {
    k == Recap || k == BookRecap
  }

  /** How far a message moves the sequence number on. */
  function Increment(m: Msg): nat {
    if m.kind == SecStatus || m.kind == BookUpdate then 1 else m.conflate
  }

  // ---------- the cache ----------

  function Cleared(c: Ctx): Ctx {
    c.(ring := [], idx := 0)
  }

  /** The last `size` messages, in order of arrival. */
  function Pushed(ring: seq<Msg>, m: Msg, size: nat): seq<Msg> {
    var all := ring + [m];
    if |all| <= size then all else all[|all| - size..]
  }

  function Cached(cfg: Config, c: Ctx, m: Msg): Ctx {
    if cfg.cacheSize == 0 then c
    else c.(ring := Pushed(c.ring, m, cfg.cacheSize), idx := if c.idx + 1 == cfg.cacheSize then 0 else c.idx + 1)
  }

  /** The messages in `s` that continue the sequence after `n`, up to the first that skips ahead. */
  function Replay(s: seq<Msg>, n: SeqNum): seq<Msg> {
    if s == [] then []
    else if s[0].seqNum == Plus(n, 1) then [s[0]] + Replay(s[1..], s[0].seqNum)
    else if s[0].seqNum > Plus(n, 1) then []
    else Replay(s[1..], n)
  }

  function LastSeqNum(s: seq<Msg>, n: SeqNum): SeqNum {
    if s == [] then n else s[|s| - 1].seqNum
  }

  /** The slots before the current index: all of the ring, or what arrived since it last wrapped. */
  function BeforeIndex(c: Ctx): seq<Msg> {
    if c.idx <= |c.ring| then c.ring[|c.ring| - c.idx..] else c.ring
  }

  function Deliveries(r: seq<Msg>, how: How): (out: seq<Delivery>)
    ensures |out| == |r| && forall i :: 0 <= i < |r| ==> out[i] == Delivery(r[i], how)
  {
    seq(|r|, i requires 0 <= i < |r| => Delivery(r[i], how))
  }

  /** dqContext_applyPreInitialCache */
  function Applied(c: Ctx): (Ctx, seq<Delivery>) {
    var r := Replay(BeforeIndex(c), c.seqNum);
    (c.(seqNum := LastSeqNum(r, c.seqNum)), Deliveries(r, Replayed))
  }

  /** The messages that a gap fill forwards from `s`: `next`, `next` + 1, ... up to but not
    * including `end`, each the first found after its predecessor. */
  function Fill(s: seq<Msg>, next: SeqNum, end: SeqNum): seq<Msg> {
    if s == [] then []
    else if s[0].seqNum != next then Fill(s[1..], next, end)
    else if Plus(next, 1) == end then [s[0]]
    else [s[0]] + Fill(s[1..], Plus(next, 1), end)
  }

  /** The fill reaches `end`. */
  predicate FillsGap(s: seq<Msg>, next: SeqNum, end: SeqNum) {
    s != [] && (
      if s[0].seqNum != next then FillsGap(s[1..], next, end)
      else Plus(next, 1) == end || FillsGap(s[1..], Plus(next, 1), end))
  }

  function MarkStale(r: seq<Msg>): (r': seq<Msg>)
    ensures |r'| == |r| && forall i :: 0 <= i < |r| ==> r'[i] == r[i].(status := Stale)
  {
    seq(|r|, i requires 0 <= i < |r| => r[i].(status := Stale))
  }

  /** dqContext_fillGap up to `end`: does it get there, and what does it forward? */
  function GapFilled(c: Ctx, end: SeqNum): (bool, seq<Delivery>) {
    var r := Fill(c.ring, Plus(c.seqNum, 1), end);
    (FillsGap(c.ring, Plus(c.seqNum, 1), end), Deliveries(if c.setCacheStale then MarkStale(r) else r, Filled))
  }

  // ---------- dqStrategy_checkSeqNum ----------

  predicate Takeover(c: Ctx, m: Msg) {
    c.sender != 0 && m.sender != 0 && c.sender != m.sender
  }

  /** The outcome of a check: the context, the message with its status, what was forwarded. */
  datatype Checked = Checked(c: Ctx, m: Msg, out: seq<Delivery>)

  function CheckSeqNum(cfg: Config, c: Ctx, m: Msg): Checked {
    var c0 := c.(doNotForward := false);
    if Takeover(c, m) && !cfg.waitForRecap then
      Checked(c0.(state := OkState, seqNum := m.seqNum, sender := m.sender), m, [])
    else
      var c1 := if Takeover(c, m)
        then c0.(doNotForward := true, seqNum := m.seqNum, state := WaitingForRecapAfterFt)
        else c0;
      if IsInitial(m.kind) || IsRecap(m.kind) then Checked(CheckImage(cfg, c1, m), m, [])
      else if m.kind == DictSnapshot then Checked(c1, m, [])
      else CheckUpdate(cfg, c.seqNum, c.state, c1, m)
  }

  function CheckImage(cfg: Config, c: Ctx, m: Msg): Ctx {
    if IsInitial(m.kind) && (m.status == PossiblyStale || m.status == Stale) then
      c.(tryToFillGap := true, state := StaleNoRecap, seqNum := m.seqNum, sender := m.sender)
    else
      c.(tryToFillGap := c.tryToFillGap || IsInitial(m.kind) || cfg.preRecapCache,
         state := OkState, seqNum := m.seqNum, sender := m.sender, doNotForward := false)
  }

  function GapClosed(c: Ctx): Ctx {
    if c.tryToFillGap then Cleared(c.(tryToFillGap := false)) else c
  }

  /** `seqNum` and `state` are those of the context before a takeover was noticed. */
  function CheckUpdate(cfg: Config, seqNum: SeqNum, state: DqState, c: Ctx, m: Msg): Checked {
    var noGap := state == NotEstablished || m.seqNum == 0 || m.seqNum == Plus(seqNum, Increment(m));
    var c1 := if noGap then GapClosed(c) else c;
    if noGap && m.status == Ok then Checked(c1.(state := OkState, seqNum := m.seqNum), m, [])
    else if cfg.ignoreDups && m.seqNum <= seqNum then Checked(c1.(doNotForward := true), m, [])
    else if m.seqNum == seqNum && state != WaitingForRecapAfterFt then
      Checked(c1.(state := DuplicateState), m.(status := Duplicate), [])
    else if state == WaitingForRecapAfterFt then Checked(c1.(doNotForward := true), m, [])
    else GapMet(cfg, c1, m)
  }

  /** A sequence number was missed. */
  function GapMet(cfg: Config, c: Ctx, m: Msg): Checked {
    if !cfg.onInitial && c.tryToFillGap then
      var (ok, out) := GapFilled(c, m.seqNum);
      var c1 := Cleared(c.(tryToFillGap := false));
      if ok then Checked(c1.(seqNum := m.seqNum), m, out)
      else Checked(c1.(setCacheStale := false, state := WaitingForRecap), m.(status := Stale), out)
    else Checked(c.(state := WaitingForRecap), m.(status := Stale), [])
  }

  // ---------- listenerMsgCallback_processMsg ----------

  /** Is the cache replayed once this image has been forwarded? */
  predicate Replays(cfg: Config, k: Kind) {
    cfg.onInitial && (IsInitial(k) || (cfg.preRecapCache && IsRecap(k)))
  }

  function CountedImage(c: Ctx, m: Msg): Ctx {
    if m.last then c.(imageCount := c.imageCount + 1, initialArrived := true) else c
  }

  /** processPointToPointMessage */
  function ImageArrived(cfg: Config, c: Ctx, m: Msg): (Ctx, seq<Delivery>) {
    var k := CheckSeqNum(cfg, CountedImage(c, m), m);
    var (c', replayed) := if Replays(cfg, m.kind) then Applied(k.c) else (k.c, []);
    (if Replays(cfg, m.kind) then Cleared(c') else c', k.out + [Delivery(k.m, Image)] + replayed)
  }

  /** Held back until an image arrives. */
  predicate MustWait(cfg: Config, c: Ctx, m: Msg) {
    || (c.expectingInitial && !c.initialArrived)
    || (c.state == WaitingForRecap && cfg.preRecapCache && !(m.kind.Delete? || m.kind.Expire? || m.kind.UnknownKind?))
  }

  function MadePossiblyStale(c: Ctx): Ctx {
    if c.state == OkState then c.(state := PossiblyStaleState) else c
  }

  /** Statuses that end the processing with an error callback. */
  predicate IsError(s: Status) {
    || s.NotPermissioned? || s.BadSymbol? || s.Expired? || s.NotFound? || s.Timeout? || s.NoSubscribers?
    || s.BandwidthExceeded?
  }

  /** Kinds that have other effects than an update: a refresh, an error callback, nothing. */
  predicate IsControl(k: Kind) {
    k.Refresh? || k.Delete? || k.Expire? || k.NotPermissionedKind? || k.NotFoundKind? || k.UnknownKind?
  }

  function UpdateArrived(cfg: Config, c: Ctx, m: Msg): (Ctx, seq<Delivery>) {
    if MustWait(cfg, c, m) then
      var c1 := if c.state == WaitingForRecap && cfg.preRecapCache then c.(setCacheStale := true) else c;
      (Cached(cfg, c1, m), [])
    else if IsControl(m.kind) then (c, [])
    else
      var k := CheckSeqNum(cfg, c, m);
      (k.c, k.out + if k.c.doNotForward then [] else [Delivery(k.m, Direct)])
  }

  function Processed(cfg: Config, c: Ctx, m: Msg): (Ctx, seq<Delivery>) {
    if IsError(m.status) then (c, [])
    else if m.status == UnknownStatus then (MadePossiblyStale(c), [])
    else
      var c1 := if m.status == PossiblyStale && m.kind == MiscKind then MadePossiblyStale(c) else c;
      if IsImage(m.kind) then ImageArrived(cfg, c1, m) else UpdateArrived(cfg, c1, m)
  }

  // ---------- runs ----------

  /** What can happen to a subscription: a message, a transport that may have gone stale, a recap
    * asked for by the client, a change of whether an initial is still expected. */
  datatype Input = Arrive(m: Msg) | TransportStale | RequestRecap | ExpectInitial(on: bool)

  function Handled(cfg: Config, c: Ctx, i: Input): (Ctx, seq<Delivery>) {
    match i
    case Arrive(m) => Processed(cfg, c, m)
    case TransportStale => (MadePossiblyStale(c), [])
    case RequestRecap => (c.(state := WaitingForRecap), [])
    case ExpectInitial(on) => (c.(expectingInitial := on), [])
  }

  /** dqContext_initializeContext on a fresh context */
  const FRESH := Ctx(0, NotEstablished, 0, false, [], 0, false, false, false, 0, false)

  /** The context and everything delivered after a run from a context. */
  function From(cfg: Config, c: Ctx, inputs: seq<Input>): (Ctx, seq<Delivery>) {
    if inputs == [] then (c, [])
    else
      var (c1, out) := From(cfg, c, inputs[..|inputs| - 1]);
      var (c2, out') := Handled(cfg, c1, inputs[|inputs| - 1]);
      (c2, out + out')
  }

  /** A whole run of a new subscription. */
  function After(cfg: Config, inputs: seq<Input>): (Ctx, seq<Delivery>) {
    From(cfg, FRESH, inputs)
  }
}
