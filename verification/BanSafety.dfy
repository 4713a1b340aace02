/** Safety of the ban lifecycle over whole runs: operations in any order, reloads of the
    firewall, and a crash between any two steps of any operation followed by a restart. */
module BanSafety {
  import opened Ipv4
  import opened TargetText
  import opened Bans
  import opened BanEffects
  import opened BanOutcomes
  import opened Time

  datatype Op =
    | Block(req: Request, clk: Clock, io: BlockIo)
    | Unblock(target: Option<Target>, at: Nanos, deleteOk: bool, unblock: CmdResult)
    | Expire(order: seq<Target>, now: Nanos, expireIo: Target -> ExpireIo)
    | Reconcile(order: seq<Target>, finish: Nanos, recon: ReconcileIo)
    | Prune(now: Nanos, ok: bool)
    | Import(present: seq<Target>, entry: Entry, now: Nanos)   // a start with an unreadable store
    | Restart(rowOrder: seq<Target>, now: Nanos, order: seq<Target>, finish: Nanos, recon: ReconcileIo)

  function StepsOf(cfg: Config, s: Sys, op: Op): seq<Step> {
    match op
    case Block(req, clk, io) => BlockSteps(cfg, s, req, clk, io)
    case Unblock(target, _, deleteOk, unblock) => UnblockSteps(target, deleteOk, unblock)
    case Expire(order, now, io) => ExpireSteps(cfg, s, order, now, io)
    case Reconcile(order, _, io) => ReconcileSteps(cfg, s, order, io)
    case Prune(now, ok) => [PruneBans(now, ok)]
    case Import(present, entry, _) => ImportStartSteps(s, present, entry)
    case Restart(rowOrder, now, order, _, io) => RestartSteps(cfg, s, rowOrder, now, order, io)
  }

  function Start(op: Op): Nanos {
    match op
    case Block(_, clk, _) => clk.expiry
    case Unblock(_, at, _, _) => at
    case Expire(_, now, _) => now
    case Reconcile(_, _, io) => io.now
    case Prune(now, _) => now
    case Import(_, _, now) => now
    case Restart(_, now, _, _, _) => now
  }

  function Finish(op: Op): Nanos {
    match op
    case Block(_, clk, _) => clk.fallback
    case Unblock(_, at, _, _) => at
    case Expire(_, now, _) => now
    case Reconcile(_, finish, _) => finish
    case Prune(now, _) => now
    case Import(_, _, now) => now
    case Restart(_, _, _, finish, _) => finish
  }

  /** What the surroundings guarantee of an operation in a state: a monotone clock, and map
      iterations that visit every key once. */
  ghost predicate Allowed(s: Sys, op: Op) {
    && Start(op) <= Finish(op)
    && match op
       case Block(_, clk, _) => clk.Monotone()
       case Expire(order, _, _) => Enumerates(order, s.mem.Keys)
       case Reconcile(order, _, _) => Enumerates(order, s.mem.Keys)
       case Restart(rowOrder, now, order, _, _) =>
         Enumerates(rowOrder, ActiveRows(s.store, now).Keys) && Enumerates(order, ActiveRows(s.store, now).Keys)
       case _ => true
  }

  // ---- promises ----

  /** A promise: the Unix second until which a target was reported blocked, in a report that
      was also persisted, and not unblocked by the operator since, nor forgotten by a start at
      which the store could not be read. */
  type Promises = map<Target, int>

  predicate Unblocks(op: Op, t: Target) {
    op.Unblock? && op.target.Some? && Normalize(op.target.value) == t
  }

  /** From the moment an operator unblocks a target, its promise is void. */
  function PromisesDuring(p: Promises, op: Op): Promises {
    if op.Import? then map[] else map t | t in p && !Unblocks(op, t) :: p[t]
  }

  function PromisesAfter(cfg: Config, s: Sys, p: Promises, op: Op): Promises {
    if op.Block? && BlockOutcome(cfg, s, op.req, op.clk, op.io) == Applied && op.io.save
    then p[Normalize(op.req.target.value) := UnixSeconds(BanExpiry(op.req.banSecs, op.clk.expiry))]
    else PromisesDuring(p, op)
  }

  ghost predicate RowHolds(s: Sys, t: Target, until: int) {
    t in s.store && s.store[t].expiresAt >= until
  }

  // ---- the invariant of every state between two operations ----

  /** blockedNets indexes exactly the networks of blockedIPs. */
  ghost predicate IndexAgrees(s: Sys) {
    && (forall t :: t in s.nets <==> t in s.mem && t.Cidr?)
    && (forall t <- s.nets :: s.nets[t] == NetOf(t))
  }

  ghost predicate BlockedAreSilenced(s: Sys) {
    forall t <- s.mem :: NetOf(t) in s.silenced
  }

  /** A promise that is still running is kept by the store and by memory. */
  ghost predicate PromisesKept(s: Sys, p: Promises, now: Nanos) {
    forall t <- p :: p[t] > UnixSeconds(now) ==>
      RowHolds(s, t, p[t]) && t in s.mem && UnixSeconds(s.mem[t].expiry) >= p[t]
  }

  ghost predicate Inv(s: Sys, p: Promises, now: Nanos) {
    IndexAgrees(s) && PromisesKept(s, p, now)
  }

  // ---- one operation, interrupted anywhere ----

  /** The step leaves a row in place that promises t at least until `until`. */
  predicate KeepsRow(step: Step, t: Target, until: int) {
    match step
    case SaveBan(u, row, _) => u != t || row.expiresAt >= until
    case DeleteBan(u, ok) => u != t || !ok
    case PruneBans(now, ok) => !ok || until > UnixSeconds(now)
    case _ => true
  }

  lemma {:induction false} RowSurvives(s: Sys, steps: seq<Step>, t: Target, until: int)
    requires RowHolds(s, t, until) && forall step <- steps :: KeepsRow(step, t, until)
    ensures RowHolds(ApplyAll(s, steps), t, until)
  {
    if steps != [] {
      assert KeepsRow(steps[|steps| - 1], t, until);
      RowSurvives(s, steps[..|steps| - 1], t, until);
    }
  }

  /** No step of any operation takes away a row that a running promise needs. */
  lemma OperationKeepsRow(cfg: Config, s: Sys, p: Promises, now: Nanos, op: Op, t: Target, at: Nanos)
    requires Inv(s, p, now) && Allowed(s, op) && now <= Start(op) && Finish(op) <= at
    requires t in PromisesDuring(p, op) && p[t] > UnixSeconds(at)
    ensures forall step <- StepsOf(cfg, s, op) :: KeepsRow(step, t, p[t])
  {
    hide ApplyAll;
    UnixMonotone(now, at);
    UnixMonotone(Finish(op), at);
    match op
    case Block(req, clk, io) => BlockKeepsRow(cfg, s, req, clk, io, t, p[t], at);
    case Unblock(_, _, _, _) =>
    case Expire(order, expireAt, io) => ExpireKeepsRow(cfg, s, order, expireAt, io, t, p[t]);
    case Reconcile(order, _, io) => ReapplyOnlyBlocks(cfg, s, order, io);
    case Prune(_, _) =>
    case Import(_, _, _) =>
    case Restart(rowOrder, loadAt, order, _, io) => RestartKeepsStore(cfg, s, rowOrder, loadAt, order, io);
  }

  lemma ExpireKeepsRow(cfg: Config, s: Sys, order: seq<Target>, now: Nanos, io: Target -> ExpireIo, t: Target,
                       until: int)
    requires t in s.mem && UnixSeconds(s.mem[t].expiry) >= until && until > UnixSeconds(now)
    ensures forall step <- ExpireSteps(cfg, s, order, now, io) :: KeepsRow(step, t, until)
  {
    var ts := Expired(s.mem, order, now);
    ExpiredExact(s.mem, order, now);
    assert t !in ts;
    CleanupTargets(cfg, ts, io);
  }

  lemma BlockKeepsRow(cfg: Config, s: Sys, req: Request, clk: Clock, io: BlockIo, t: Target, until: int, at: Nanos)
    requires clk.Monotone() && clk.fallback <= at && until > UnixSeconds(at)
    requires t in s.mem && UnixSeconds(s.mem[t].expiry) >= until
    ensures forall step <- BlockSteps(cfg, s, req, clk, io) :: KeepsRow(step, t, until)
  {
    match Decide(cfg, s, req, clk)
    case Fresh => assert LiveIn(s.mem, t, clk.check);
    case Extend(prev) =>
      var u := Normalize(req.target.value);
      assert forall step <- ExtendRuleSteps(cfg, u, req, clk, io, prev) :: KeepsRow(step, t, until);
      assert forall step <- RestoreSteps(u, prev, io) :: KeepsRow(step, t, until);
    case _ =>
  }

  lemma {:induction false} LoadKeepsStore(s: Sys, rows: map<Target, Row>, order: seq<Target>)
    ensures forall step <- LoadSteps(s, rows, order) :: step.Insert? || step.Silence?
  {
    if order != [] { LoadKeepsStore(s, rows, order[..|order| - 1]); }
  }

  lemma RestartKeepsStore(cfg: Config, s: Sys, rowOrder: seq<Target>, now: Nanos, order: seq<Target>, io: ReconcileIo)
    ensures forall step <- RestartSteps(cfg, s, rowOrder, now, order, io) ::
              step.Reset? || step.Insert? || step.Silence? || step.FwBlock?
  {
    var empty := Apply(s, Reset);
    var load := LoadSteps(empty, ActiveRows(s.store, now), rowOrder);
    LoadKeepsStore(empty, ActiveRows(s.store, now), rowOrder);
    ReapplyOnlyBlocks(cfg, ApplyAll(empty, load), order, io);
  }

  /** Write-ahead: stopped after any number of steps, the store still holds every promise
      that will be running when the agent comes back. */
  lemma PromisesSurviveInterruption(cfg: Config, s: Sys, p: Promises, now: Nanos, op: Op, k: nat, t: Target, at: Nanos)
    requires Inv(s, p, now) && Allowed(s, op) && now <= Start(op) && Finish(op) <= at
    requires k <= |StepsOf(cfg, s, op)|
    requires t in PromisesDuring(p, op) && p[t] > UnixSeconds(at)
    ensures RowHolds(ApplyAll(s, StepsOf(cfg, s, op)[..k]), t, p[t])
  {
    var steps := StepsOf(cfg, s, op);
    OperationKeepsRow(cfg, s, p, now, op, t, at);
    UnixMonotone(now, at);
    assert RowHolds(s, t, p[t]);
    assert forall step <- steps[..k] :: step in steps;
    RowSurvives(s, steps[..k], t, p[t]);
  }

  lemma UnixMonotone(a: Nanos, b: Nanos)
    requires a <= b
    ensures UnixSeconds(a) <= UnixSeconds(b)
  {
  }

  // ---- the invariant after each operation ----

  lemma BlockKeepsInv(cfg: Config, s: Sys, p: Promises, now: Nanos, req: Request, clk: Clock, io: BlockIo)
    requires Inv(s, p, now) && clk.Monotone() && now <= clk.expiry
    ensures var op := Block(req, clk, io);
            var end := ApplyAll(s, BlockSteps(cfg, s, req, clk, io));
            IndexAgrees(end) && PromisesKept(end, PromisesAfter(cfg, s, p, op), clk.fallback)
  {
    var op := Block(req, clk, io);
    var after := PromisesAfter(cfg, s, p, op);
    var end := ApplyAll(s, BlockSteps(cfg, s, req, clk, io));
    BlockKeepsIndex(cfg, s, req, clk, io);
    forall t | t in after && after[t] > UnixSeconds(clk.fallback)
      ensures RowHolds(end, t, after[t]) && t in end.mem && UnixSeconds(end.mem[t].expiry) >= after[t]
    {
      if BlockOutcome(cfg, s, req, clk, io) == Applied && io.save && t == Normalize(req.target.value) {
        AppliedMeansBlocked(cfg, s, req, clk, io);
      } else {
        assert t in PromisesDuring(p, op) && after[t] == p[t];
        UnixMonotone(now, clk.fallback);
        OldPromiseKept(cfg, s, req, clk, io, t, p[t]);
      }
    }
  }

  lemma OldPromiseKept(cfg: Config, s: Sys, req: Request, clk: Clock, io: BlockIo, t: Target, until: int)
    requires clk.Monotone() && until > UnixSeconds(clk.fallback)
    requires RowHolds(s, t, until) && t in s.mem && UnixSeconds(s.mem[t].expiry) >= until
    ensures var end := ApplyAll(s, BlockSteps(cfg, s, req, clk, io));
            RowHolds(end, t, until) && t in end.mem && UnixSeconds(end.mem[t].expiry) >= until
  {
    UnixMonotone(clk.check, clk.fallback);
    BlockKeepsRow(cfg, s, req, clk, io, t, until, clk.fallback);
    RowSurvives(s, BlockSteps(cfg, s, req, clk, io), t, until);
    LiveBansNeverShrink(cfg, s, req, clk, io, t);
    UnixMonotone(s.mem[t].expiry, ApplyAll(s, BlockSteps(cfg, s, req, clk, io)).mem[t].expiry);
  }

  lemma BlockKeepsIndex(cfg: Config, s: Sys, req: Request, clk: Clock, io: BlockIo)
    requires IndexAgrees(s)
    ensures IndexAgrees(ApplyAll(s, BlockSteps(cfg, s, req, clk, io)))
  {
    match Decide(cfg, s, req, clk)
    case Fresh => FreshKeepsIndex(cfg, s, Normalize(req.target.value), req, clk, io);
    case Extend(prev) => ExtendKeepsIndex(cfg, s, Normalize(req.target.value), req, clk, io, prev);
    case _ => NoActionChangesNothing(cfg, s, req, clk, io);
  }

  lemma FreshKeepsIndex(cfg: Config, s: Sys, t: Target, req: Request, clk: Clock, io: BlockIo)
    requires IndexAgrees(s)
    ensures IndexAgrees(ApplyAll(s, FreshSteps(cfg, t, req, clk, io)))
  {
    hide ApplyAll, FreshSteps;
    FreshEffect(cfg, s, t, req, clk, io);
  }

  lemma ExtendKeepsIndex(cfg: Config, s: Sys, t: Target, req: Request, clk: Clock, io: BlockIo, prev: Entry)
    requires IndexAgrees(s) && t in s.mem
    ensures IndexAgrees(ApplyAll(s, ExtendSteps(cfg, t, req, clk, io, prev)))
  {
    hide ApplyAll, ExtendSteps, ExtendRuleSteps;
    ExtendEffect(cfg, s, t, req, clk, io, prev);
  }

  lemma ExpireKeepsInv(cfg: Config, s: Sys, p: Promises, now: Nanos, order: seq<Target>, at: Nanos,
                       io: Target -> ExpireIo)
    requires Inv(s, p, now) && Enumerates(order, s.mem.Keys) && now <= at
    ensures var end := ApplyAll(s, ExpireSteps(cfg, s, order, at, io));
            IndexAgrees(end) && PromisesKept(end, p, at)
  {
    hide ApplyAll;
    hide ExpireSteps;
    var steps := ExpireSteps(cfg, s, order, at, io);
    var end := ApplyAll(s, steps);
    ExpireMaps(cfg, s, order, at, io);
    UnixMonotone(now, at);
    forall t | t in p && p[t] > UnixSeconds(at)
      ensures RowHolds(end, t, p[t]) && t in end.mem && UnixSeconds(end.mem[t].expiry) >= p[t]
    {
      ExpireKeepsRow(cfg, s, order, at, io, t, p[t]);
      RowSurvives(s, steps, t, p[t]);
    }
  }

  lemma UnblockKeepsInv(cfg: Config, s: Sys, p: Promises, now: Nanos, op: Op)
    requires Inv(s, p, now) && op.Unblock? && Allowed(s, op) && now <= op.at
    ensures var end := ApplyAll(s, StepsOf(cfg, s, op));
            IndexAgrees(end) && PromisesKept(end, PromisesDuring(p, op), op.at)
  {
    if op.target.Some? {
      var t := Normalize(op.target.value);
      UnixMonotone(now, op.at);
      UnblockEffect(s, t, op.deleteOk, op.unblock);
    } else {
      UnixMonotone(now, op.at);
    }
  }

  lemma UnblockEffect(s: Sys, t: Target, deleteOk: bool, unblock: CmdResult)
    ensures var end := ApplyAll(s, [Remove(t), DeleteBan(t, deleteOk), Unsilence(t), FwUnblock(t, unblock)]);
            end == Sys(s.mem - {t}, s.nets - {t}, if deleteOk then s.store - {t} else s.store,
                       s.silenced - {NetOf(t)}, if unblock.effect then s.rules - {t} else s.rules)
  {
    var a, b := [Remove(t), DeleteBan(t, deleteOk)], [Unsilence(t), FwUnblock(t, unblock)];
    ApplyAllAppend(s, a, b);
    assert a + b == [Remove(t), DeleteBan(t, deleteOk), Unsilence(t), FwUnblock(t, unblock)];
    Two(s, a[0], a[1]);
    Two(ApplyAll(s, a), b[0], b[1]);
  }

  lemma PruneKeepsInv(cfg: Config, s: Sys, p: Promises, now: Nanos, at: Nanos, ok: bool)
    requires Inv(s, p, now) && now <= at
    ensures var end := ApplyAll(s, [PruneBans(at, ok)]);
            IndexAgrees(end) && PromisesKept(end, p, at)
  {
    ApplyAllOne(s, PruneBans(at, ok));
    UnixMonotone(now, at);
  }

  /** The state a restart leaves satisfies the invariant for every promise the store holds. */
  lemma RestartEstablishesInv(cfg: Config, s: Sys, p: Promises, op: Op)
    requires op.Restart? && Allowed(s, op)
    requires forall t <- p :: p[t] > UnixSeconds(op.now) ==> RowHolds(s, t, p[t])
    ensures var end := ApplyAll(s, StepsOf(cfg, s, op));
            IndexAgrees(end) && BlockedAreSilenced(end) && PromisesKept(end, p, op.now)
  {
    var up := RestartEffect(cfg, s, op.rowOrder, op.now, op.order, op.recon);
    var end := ApplyAll(s, StepsOf(cfg, s, op));
    assert IndexAgrees(end);
  }

  /** A start from the listed rules: exactly they are blocked, indexed and silenced; the store
      and the firewall are as they were. */
  lemma ImportEffect(s: Sys, present: seq<Target>, e: Entry)
    ensures var end := ApplyAll(s, ImportStartSteps(s, present, e));
            && end.mem == (map t | t in present :: e) && end.store == s.store && end.rules == s.rules
            && IndexAgrees(end) && BlockedAreSilenced(end)
  {
    var empty := Apply(s, Reset);
    ApplyAllOne(s, Reset);
    ApplyAllAppend(s, [Reset], ImportSteps(empty, present, e));
    hide ApplyAll, ImportSteps, NetOf;
    ImportLoads(empty, present, e);
    assert (map t | t in present :: e).Keys == Keys(present);
  }

  lemma KeptLater(s: Sys, p: Promises, now: Nanos, later: Nanos)
    requires PromisesKept(s, p, now) && now <= later
    ensures PromisesKept(s, p, later)
  {
    UnixMonotone(now, later);
  }

  /** The promises behind every operation but a block request. */
  lemma SamePromises(cfg: Config, s: Sys, p: Promises, op: Op)
    requires !op.Block?
    ensures PromisesAfter(cfg, s, p, op) ==
            if op.Import? then map[] else if op.Unblock? then PromisesDuring(p, op) else p
  {
  }

  lemma ReconcileKeepsInv(cfg: Config, s: Sys, p: Promises, now: Nanos, op: Op)
    requires Inv(s, p, now) && op.Reconcile? && Allowed(s, op) && now <= Start(op)
    ensures Inv(ApplyAll(s, StepsOf(cfg, s, op)), p, Finish(op))
  {
    hide ApplyAll, ReconcileSteps, NetOf;
    ReconcileEffect(cfg, s, op.order, op.recon);
    KeptLater(ApplyAll(s, StepsOf(cfg, s, op)), p, now, Finish(op));
  }

  lemma RestartKeepsInv(cfg: Config, s: Sys, p: Promises, now: Nanos, op: Op)
    requires Inv(s, p, now) && op.Restart? && Allowed(s, op) && now <= Start(op)
    ensures Inv(ApplyAll(s, StepsOf(cfg, s, op)), p, Finish(op))
  {
    hide ApplyAll, RestartSteps, IndexAgrees;
    UnixMonotone(now, op.now);
    RestartEstablishesInv(cfg, s, p, op);
    KeptLater(ApplyAll(s, StepsOf(cfg, s, op)), p, op.now, op.finish);
  }

  lemma ImportKeepsInv(cfg: Config, s: Sys, op: Op)
    requires op.Import?
    ensures Inv(ApplyAll(s, StepsOf(cfg, s, op)), map[], Finish(op))
  {
    hide ApplyAll, ImportStartSteps, IndexAgrees, BlockedAreSilenced;
    ImportEffect(s, op.present, op.entry);
  }

  lemma OperationKeepsInv(cfg: Config, s: Sys, p: Promises, now: Nanos, op: Op)
    requires Inv(s, p, now) && Allowed(s, op) && now <= Start(op)
    ensures Inv(ApplyAll(s, StepsOf(cfg, s, op)), PromisesAfter(cfg, s, p, op), Finish(op))
  {
    hide ApplyAll, BlockSteps, ExpireSteps, ReconcileSteps, RestartSteps, ImportStartSteps, UnblockSteps, NetOf;
    hide IndexAgrees, PromisesKept, BlockedAreSilenced, PromisesAfter, PromisesDuring;
    if !op.Block? { SamePromises(cfg, s, p, op); }
    match op
    case Block(req, clk, io) => BlockKeepsInv(cfg, s, p, now, req, clk, io);
    case Unblock(_, _, _, _) => UnblockKeepsInv(cfg, s, p, now, op);
    case Expire(order, at, io) => ExpireKeepsInv(cfg, s, p, now, order, at, io);
    case Reconcile(_, _, _) => ReconcileKeepsInv(cfg, s, p, now, op);
    case Prune(at, ok) => PruneKeepsInv(cfg, s, p, now, at, ok);
    case Import(_, _, _) => ImportKeepsInv(cfg, s, op);
    case Restart(_, _, _, _, _) => RestartKeepsInv(cfg, s, p, now, op);
  }

  // ---- runs ----

  /** What happens next: an operation; a change of the firewall from outside (a reload, a
      timeout, an administrator); or an operation cut off after k steps by a crash, after
      which the agent restarts, with the firewall changed in whatever way meanwhile. */
  datatype Event =
    | Serve(op: Op)
    | Reload(rules: map<Target, Option<Nanos>>, at: Nanos)
    | Crash(op: Op, k: nat, rules: map<Target, Option<Nanos>>, restart: Op)

  datatype World = World(s: Sys, promises: Promises, now: Nanos)

  function CrashedState(cfg: Config, s: Sys, ev: Event): Sys
    requires ev.Crash? && ev.k <= |StepsOf(cfg, s, ev.op)|
  {
    ApplyAll(s, StepsOf(cfg, s, ev.op)[..ev.k]).(rules := ev.rules)
  }

  function PromisesAcross(p: Promises, op: Op, restart: Op): Promises {
    if restart.Import? then map[] else PromisesDuring(p, op)
  }

  ghost predicate Possible(cfg: Config, w: World, ev: Event) {
    match ev
    case Serve(op) => Allowed(w.s, op) && w.now <= Start(op)
    case Reload(_, at) => w.now <= at
    case Crash(op, k, _, restart) =>
      && Allowed(w.s, op) && w.now <= Start(op) && k <= |StepsOf(cfg, w.s, op)|
      && (restart.Restart? || restart.Import?) && Finish(op) <= Start(restart)
      && Allowed(CrashedState(cfg, w.s, ev), restart)
  }

  function Next(cfg: Config, w: World, ev: Event): World {
    match ev
    case Serve(op) =>
      World(ApplyAll(w.s, StepsOf(cfg, w.s, op)), PromisesAfter(cfg, w.s, w.promises, op), Finish(op))
    case Reload(rules, at) => World(w.s.(rules := rules), w.promises, at)
    case Crash(op, k, _, restart) =>
      if k <= |StepsOf(cfg, w.s, op)| then
        var down := CrashedState(cfg, w.s, ev);
        World(ApplyAll(down, StepsOf(cfg, down, restart)), PromisesAcross(w.promises, op, restart), Finish(restart))
      else w
  }

  function Run(cfg: Config, w: World, events: seq<Event>): World {
    if events == [] then w
    else Next(cfg, Run(cfg, w, events[..|events| - 1]), events[|events| - 1])
  }

  ghost predicate PossibleRun(cfg: Config, w: World, events: seq<Event>) {
    forall k :: 0 <= k < |events| ==> Possible(cfg, Run(cfg, w, events[..k]), events[k])
  }

  lemma PossibleInit(cfg: Config, w: World, events: seq<Event>)
    requires PossibleRun(cfg, w, events) && events != []
    ensures var init := events[..|events| - 1];
            PossibleRun(cfg, w, init) && Possible(cfg, Run(cfg, w, init), events[|events| - 1])
  {
    hide Possible, Run;
    var init := events[..|events| - 1];
    assert forall k :: 0 <= k < |init| ==> init[..k] == events[..k] && init[k] == events[k];
  }

  lemma NoEvents(cfg: Config, w: World)
    ensures Run(cfg, w, []) == w
  {
  }

  lemma RunNext(cfg: Config, w: World, events: seq<Event>, k: nat)
    requires PossibleRun(cfg, w, events) && k < |events|
    ensures Run(cfg, w, events[..k + 1])
         == Next(cfg, Run(cfg, w, events[..k]), events[k])
    ensures Possible(cfg, Run(cfg, w, events[..k]), events[k])
  {
    hide Next, Possible;
    assert events[..k + 1][..k] == events[..k];
  }

  lemma CrashKeepsInv(cfg: Config, w: World, ev: Event)
    requires ev.Crash? && Possible(cfg, w, ev) && Inv(w.s, w.promises, w.now)
    ensures var end := Next(cfg, w, ev);
            Inv(end.s, end.promises, end.now)
  {
    hide ApplyAll;
    var op, restart := ev.op, ev.restart;
    var down := CrashedState(cfg, w.s, ev);
    if restart.Import? {
      ImportEffect(down, restart.present, restart.entry);
    } else {
      var p := PromisesDuring(w.promises, op);
      forall t | t in p && p[t] > UnixSeconds(restart.now) ensures RowHolds(down, t, p[t]) {
        PromisesSurviveInterruption(cfg, w.s, w.promises, w.now, op, ev.k, t, restart.now);
      }
      RestartEstablishesInv(cfg, down, p, restart);
      UnixMonotone(restart.now, restart.finish);
    }
  }

  /** Every state between two events of every possible run, crashes and starts without the
      store included: the index of networks agrees with the map, and every persisted promise
      still running is kept by memory and by the store. */
  lemma {:induction false} RunsAreSafe(cfg: Config, w: World, events: seq<Event>)
    requires Inv(w.s, w.promises, w.now) && PossibleRun(cfg, w, events)
    ensures var end := Run(cfg, w, events);
            Inv(end.s, end.promises, end.now)
  {
    if events != [] {
      var init, ev := events[..|events| - 1], events[|events| - 1];
      PossibleInit(cfg, w, events);
      RunsAreSafe(cfg, w, init);
      hide PossibleRun;
      var mid := Run(cfg, w, init);
      match ev
      case Serve(op) => OperationKeepsInv(cfg, mid.s, mid.promises, mid.now, op);
      case Reload(_, at) => UnixMonotone(mid.now, at);
      case Crash(_, _, _, _) => CrashKeepsInv(cfg, mid, ev);
    }
  }

  lemma FreshStartIsSafe(store: map<Target, Row>, rules: map<Target, Option<Nanos>>, silenced: set<Net>, now: Nanos)
    ensures Inv(Sys(map[], map[], store, silenced, rules), map[], now)
  {
  }

  /** The restarted agent is set up, its firewall answers, a successful command leaves the rule
      there, and the clock does not step back. */
  ghost predicate FirewallAnswers(ev: Event)
    requires ev.Crash? && ev.restart.Restart?
  {
    var io := ev.restart.recon;
    && io.setupOk && io.listOk
    && (forall t :: io.block(t).ok && !io.block(t).effect ==> RuleActive(ev.rules, t, io.listAt))
    && io.now <= io.listAt && forall t :: io.listAt <= io.recheck(t) <= io.at(t)
  }

  /** Exactly the persisted bans still running are blocked, each is silenced and indexed, each
      is present in the firewall unless its own command failed, and no promise is lost. */
  ghost predicate Recovered(cfg: Config, w: World, ev: Event) {
    ev.Crash? && ev.k <= |StepsOf(cfg, w.s, ev.op)| && ev.restart.Restart? &&
    var down := CrashedState(cfg, w.s, ev);
    var end := Next(cfg, w, ev).s;
    var io := ev.restart.recon;
    && end.mem.Keys == ActiveRows(down.store, ev.restart.now).Keys
    && IndexAgrees(end)
    && (forall t <- end.mem ::
          && end.mem[t].expiry == down.store[t].expiresAt * SECOND
          && NetOf(t) in end.silenced
          && (io.recheck(t) < end.mem[t].expiry && io.block(t).ok ==>
                Present(ev.rules, t, io.listAt) || (t in end.rules && Outlasts(end.rules[t], end.mem[t].expiry))))
    && (forall t <- PromisesDuring(w.promises, ev.op) ::
          w.promises[t] > UnixSeconds(ev.restart.now) ==>
            t in end.mem && end.mem[t].expiry >= w.promises[t] * SECOND)
  }

  /** Crash consistency: cut any operation off after any number of steps, change the firewall
      at will, and restart with a readable store and a firewall that answers: everything is
      recovered. */
  lemma CrashConsistency(cfg: Config, w: World, ev: Event)
    requires Inv(w.s, w.promises, w.now) && ev.Crash? && ev.restart.Restart?
    requires Possible(cfg, w, ev) && FirewallAnswers(ev)
    ensures Recovered(cfg, w, ev)
  {
    hide ApplyAll;
    CrashKeepsInv(cfg, w, ev);
    var op, io := ev.restart, ev.restart.recon;
    var down := CrashedState(cfg, w.s, ev);
    var end := Next(cfg, w, ev).s;
    var up := RestartEffect(cfg, down, op.rowOrder, op.now, op.order, io);
    assert forall t :: t in op.order <==> t in up.mem.Keys;
    ReconcileAfterRestart(cfg, up, end.rules, io);
    forall t | t in PromisesDuring(w.promises, ev.op) && w.promises[t] > UnixSeconds(op.now)
      ensures t in end.mem && end.mem[t].expiry >= w.promises[t] * SECOND
    {
      PromisesSurviveInterruption(cfg, w.s, w.promises, w.now, ev.op, ev.k, t, op.now);
    }
  }

  /** Hence after any run, earlier crashes included. */
  lemma CrashConsistencyOverRuns(cfg: Config, w: World, events: seq<Event>, ev: Event)
    requires Inv(w.s, w.promises, w.now) && PossibleRun(cfg, w, events + [ev])
    requires ev.Crash? && ev.restart.Restart? && FirewallAnswers(ev)
    ensures Recovered(cfg, Run(cfg, w, events), ev)
  {
    hide *;
    assert (events + [ev])[..|events|] == events;
    PossibleInit(cfg, w, events + [ev]);
    RunsAreSafe(cfg, w, events);
    CrashConsistency(cfg, Run(cfg, w, events), ev);
  }

  lemma ReconcileAfterRestart(cfg: Config, up: Sys, rules: map<Target, Option<Nanos>>, io: ReconcileIo)
    requires Reconciled(cfg, up, up.mem.Keys, io, rules)
    requires HonestBlocks(up, io) && PassTimes(io)
    ensures forall t <- up.mem :: io.recheck(t) < up.mem[t].expiry && io.block(t).ok ==>
              Present(up.rules, t, io.listAt) || (t in rules && Outlasts(rules[t], up.mem[t].expiry))
  {
    forall t | t in up.mem && io.recheck(t) < up.mem[t].expiry && io.block(t).ok && !Present(up.rules, t, io.listAt)
      ensures t in rules && Outlasts(rules[t], up.mem[t].expiry)
    {
      assert !RuleActive(up.rules, t, io.listAt);
      assert Restored(up, t, io);
      ReappliedOutlasts(cfg, up, t, io);
    }
  }
}
