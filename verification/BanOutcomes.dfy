/** What one operation promises its caller, and what one reconciliation pass achieves. */
module BanOutcomes {
  import opened Ipv4
  import opened TargetText
  import opened Bans
  import opened BanEffects
  import opened Time

  // ---- the reported outcome is the truth ----

  /** Skipped, already blocked and unreadable requests change nothing at all. */
  lemma NoActionChangesNothing(cfg: Config, s: Sys, req: Request, clk: Clock, io: BlockIo)
    requires BlockOutcome(cfg, s, req, clk, io) in {Skipped, Already} || req.target.None?
    ensures ApplyAll(s, BlockSteps(cfg, s, req, clk, io))
         == s
  {
  }

  /** The view of one target in one state: entry, network index, row, rule. */
  datatype Facts = Facts(entry: Option<Entry>, net: Option<Net>, row: Option<Row>, rule: Option<Option<Nanos>>)

  function FactsOf(s: Sys, t: Target): Facts {
    Facts(if t in s.mem then Some(s.mem[t]) else None,
          if t in s.nets then Some(s.nets[t]) else None,
          if t in s.store then Some(s.store[t]) else None,
          if t in s.rules then Some(s.rules[t]) else None)
  }

  /** A block request never changes anything about another target, and silences nobody else. */
  lemma OthersUntouched(cfg: Config, s: Sys, req: Request, clk: Clock, io: BlockIo, u: Target)
    requires req.target.None? || u != Normalize(req.target.value)
    ensures var end := ApplyAll(s, BlockSteps(cfg, s, req, clk, io));
            FactsOf(end, u) == FactsOf(s, u)
    ensures var end := ApplyAll(s, BlockSteps(cfg, s, req, clk, io));
            s.silenced <= end.silenced
            && (req.target.Some? ==> end.silenced <= s.silenced + {NetOf(Normalize(req.target.value))})
  {
    match Decide(cfg, s, req, clk)
    case Fresh => FreshOthers(cfg, s, Normalize(req.target.value), req, clk, io, u);
    case Extend(prev) => ExtendOthers(cfg, s, Normalize(req.target.value), req, clk, io, prev, u);
    case _ =>
  }

  lemma FreshOthers(cfg: Config, s: Sys, t: Target, req: Request, clk: Clock, io: BlockIo, u: Target)
    requires u != t
    ensures var end := ApplyAll(s, FreshSteps(cfg, t, req, clk, io));
            FactsOf(end, u) == FactsOf(s, u) && s.silenced <= end.silenced <= s.silenced + {NetOf(t)}
  {
    hide ApplyAll, FreshSteps;
    FreshEffect(cfg, s, t, req, clk, io);
  }

  lemma ExtendOthers(cfg: Config, s: Sys, t: Target, req: Request, clk: Clock, io: BlockIo, prev: Entry, u: Target)
    requires u != t
    ensures var end := ApplyAll(s, ExtendSteps(cfg, t, req, clk, io, prev));
            FactsOf(end, u) == FactsOf(s, u) && end.silenced == s.silenced
  {
    hide ApplyAll, ExtendSteps;
    ExtendEffect(cfg, s, t, req, clk, io, prev);
    assert forall step <- ExtendRuleSteps(cfg, t, req, clk, io, prev) :: !TouchesRule(step, u);
    RuleKept(s, ExtendRuleSteps(cfg, t, req, clk, io, prev), u);
  }

  ghost predicate Outlasts(rule: Option<Nanos>, expiry: Nanos) { rule.None? || rule.value >= expiry }

  /** The target has a rule, there before the operation, that lasts at least until `expiry`. */
  ghost predicate Backed(s: Sys, t: Target, expiry: Nanos) { t in s.rules && Outlasts(s.rules[t], expiry) }

  ghost predicate Enforced(s: Sys, t: Target) {
    t in s.mem ==> Backed(s, t, s.mem[t].expiry)
  }

  /** When a fresh block leaves its target enforced: it failed and was taken back, or its command
      changed the rules, or it found a rule that lasts as long. */
  ghost predicate FreshBacked(cfg: Config, s: Sys, t: Target, req: Request, clk: Clock, io: BlockIo) {
    !io.block.ok || io.block.effect || Backed(s, t, BanExpiry(req.banSecs, clk.expiry))
  }

  /** When an extension does: one of the rules it asked for was really added, or the old one was
      left in place and lasts as long as the entry that remains. */
  ghost predicate ExtensionBacked(cfg: Config, s: Sys, t: Target, req: Request, clk: Clock, io: BlockIo, prev: Entry) {
    var expiry := if ExtensionOk(cfg, io) then BanExpiry(req.banSecs, clk.expiry) else prev.expiry;
    var keepsRule := NeedsExplicitUnban(cfg.backend);
    || ((keepsRule || io.unblock.ok) && io.block.effect)
    || (!keepsRule && io.unblock.ok && !io.block.ok && io.fallback.effect)
    || ((keepsRule || !io.unblock.effect) && Backed(s, t, expiry))
  }

  ghost predicate RuleBacks(cfg: Config, s: Sys, req: Request, clk: Clock, io: BlockIo) {
    match Decide(cfg, s, req, clk)
    case Fresh => FreshBacked(cfg, s, Normalize(req.target.value), req, clk, io)
    case Extend(prev) => ExtensionBacked(cfg, s, Normalize(req.target.value), req, clk, io, prev)
    case _ => true
  }

  /** Applied: the target is blocked until the requested expiry, persisted for at least as
      long if the store accepted it, and silenced; and a rule backs it for as long exactly when
      RuleBacks says so. A command that reports success need not have changed anything. */
  lemma AppliedMeansBlocked(cfg: Config, s: Sys, req: Request, clk: Clock, io: BlockIo)
    requires BlockOutcome(cfg, s, req, clk, io) == Applied && clk.Monotone()
    ensures var t := Normalize(req.target.value);
            var end := ApplyAll(s, BlockSteps(cfg, s, req, clk, io));
            var expiry := BanExpiry(req.banSecs, clk.expiry);
            && t in end.mem && end.mem[t] == Entry(expiry, req.moduleName)
            && (io.save ==> t in end.store && end.store[t].expiresAt >= UnixSeconds(expiry))
            && (io.block.effect ==> Backed(end, t, expiry))
            && (Backed(end, t, expiry) <==> RuleBacks(cfg, s, req, clk, io))
            && (NetOf(t) in end.silenced || (t in s.mem && NetOf(t) !in s.silenced))
  {
    var t := Normalize(req.target.value);
    match Decide(cfg, s, req, clk)
    case Fresh =>
      FreshEffect(cfg, s, t, req, clk, io);
      FreshEnforcedExactly(cfg, s, t, req, clk, io);
    case Extend(prev) =>
      ExtendEffect(cfg, s, t, req, clk, io, prev);
      ExtensionEnforcedExactly(cfg, s, t, req, clk, io, prev);
  }

  /** Failed: an earlier live ban is back in the map exactly as it was, and in the store if
      the store accepted it; otherwise the target is in neither map, nor in the store if the
      store accepted the deletion. */
  lemma FailedMeansRestored(cfg: Config, s: Sys, req: Request, clk: Clock, io: BlockIo)
    requires BlockOutcome(cfg, s, req, clk, io) == Failed && req.target.Some?
    ensures var t := Normalize(req.target.value);
            var end := ApplyAll(s, BlockSteps(cfg, s, req, clk, io));
            if LiveIn(s.mem, t, clk.check)
            then && end.mem == s.mem && end.nets == s.nets
                 && (io.restore ==>
                       t in end.store && end.store[t] == Row(s.mem[t].moduleName, UnixSeconds(s.mem[t].expiry)))
            else && t !in end.mem && t !in end.nets
                 && (io.delete ==> t !in end.store)
  {
    var t := Normalize(req.target.value);
    match Decide(cfg, s, req, clk)
    case Fresh => FreshEffect(cfg, s, t, req, clk, io);
    case Extend(prev) => ExtendEffect(cfg, s, t, req, clk, io, prev);
  }

  /** Under block requests a live ban stays and its expiry never decreases. */
  lemma LiveBansNeverShrink(cfg: Config, s: Sys, req: Request, clk: Clock, io: BlockIo, u: Target)
    requires LiveIn(s.mem, u, clk.check)
    ensures var end := ApplyAll(s, BlockSteps(cfg, s, req, clk, io));
            u in end.mem && end.mem[u].expiry >= s.mem[u].expiry
  {
    if req.target.None? || u != Normalize(req.target.value) {
      OthersUntouched(cfg, s, req, clk, io, u);
    } else {
      match Decide(cfg, s, req, clk)
      case Extend(prev) => ExtendEffect(cfg, s, u, req, clk, io, prev);
      case _ => NoActionChangesNothing(cfg, s, req, clk, io);
    }
  }

  datatype BlockCall = BlockCall(req: Request, clk: Clock, io: BlockIo)

  function RunBlocks(cfg: Config, s: Sys, calls: seq<BlockCall>): Sys {
    if calls == [] then s
    else
      var mid := RunBlocks(cfg, s, calls[..|calls| - 1]);
      var c := calls[|calls| - 1];
      ApplyAll(mid, BlockSteps(cfg, mid, c.req, c.clk, c.io))
  }

  /** The same over any run of block requests: a ban that is live until after the last one is
      still there, and lasts at least as long. */
  lemma {:induction false} LiveBansNeverShrinkRun(cfg: Config, s: Sys, calls: seq<BlockCall>, u: Target, until: Nanos)
    requires LiveIn(s.mem, u, until)
    requires forall c <- calls :: c.clk.check <= until
    ensures var end := RunBlocks(cfg, s, calls);
            u in end.mem && end.mem[u].expiry >= s.mem[u].expiry
  {
    if calls != [] {
      var init, c := calls[..|calls| - 1], calls[|calls| - 1];
      assert c in calls;
      LiveBansNeverShrinkRun(cfg, s, init, u, until);
      LiveBansNeverShrink(cfg, RunBlocks(cfg, s, init), c.req, c.clk, c.io, u);
    }
  }

  // ---- a block request and the firewall ----

  lemma FreshEnforcedExactly(cfg: Config, s: Sys, t: Target, req: Request, clk: Clock, io: BlockIo)
    requires clk.Monotone()
    ensures Enforced(ApplyAll(s, FreshSteps(cfg, t, req, clk, io)), t)
       <==> FreshBacked(cfg, s, t, req, clk, io)
  {
    FreshEffect(cfg, s, t, req, clk, io);
    RuleOutlastsBan(cfg.backend, req.banSecs, clk.expiry, clk.apply);
  }

  /** Whatever the commands report and do, an extension leaves the ban enforced exactly when
      ExtensionBacked holds. */
  lemma ExtensionEnforcedExactly(cfg: Config, s: Sys, t: Target, req: Request, clk: Clock, io: BlockIo, prev: Entry)
    requires clk.Monotone() && BanExpiry(req.banSecs, clk.expiry) > prev.expiry
    ensures Enforced(ApplyAll(s, ExtendSteps(cfg, t, req, clk, io, prev)), t)
        <==> ExtensionBacked(cfg, s, t, req, clk, io, prev)
  {
    hide ExtendSteps;
    ExtendEffect(cfg, s, t, req, clk, io, prev);
    RuleOutlastsBan(cfg.backend, req.banSecs, clk.expiry, clk.apply);
    FallbackOutlasts(cfg.backend, prev.expiry, clk.fallback);
    ExtensionRule(cfg, s, t, req, clk, io, prev);
  }

  /** The rule of the target after the firewall half of an extension. */
  lemma ExtensionRule(cfg: Config, s: Sys, t: Target, req: Request, clk: Clock, io: BlockIo, prev: Entry)
    ensures var rules := ApplyAll(s, ExtendRuleSteps(cfg, t, req, clk, io, prev)).rules;
            var keepsRule := NeedsExplicitUnban(cfg.backend);
            if !keepsRule && io.unblock.ok && !io.block.ok && io.fallback.effect
            then t in rules && rules[t] == RuleAgain(cfg, clk, prev)
            else if (keepsRule || io.unblock.ok) && io.block.effect
            then t in rules && rules[t] == RuleUntil(cfg.backend, req.banSecs, clk.apply)
            else if !keepsRule && io.unblock.effect then t !in rules
            else (t in rules <==> t in s.rules) && (t in rules ==> rules[t] == s.rules[t])
  {
    var block := FwBlock(t, RuleUntil(cfg.backend, req.banSecs, clk.apply), io.block);
    var again := FwBlock(t, RuleAgain(cfg, clk, prev), io.fallback);
    var unblock := FwUnblock(t, io.unblock);
    var steps := ExtendRuleSteps(cfg, t, req, clk, io, prev);
    assert steps ==
           if NeedsExplicitUnban(cfg.backend) then [block]
           else if !io.unblock.ok then [unblock]
           else if io.block.ok then [unblock, block]
           else [unblock, block, again];
    hide ApplyAll, ExtendRuleSteps, RuleUntil, RuleAgain;
    if |steps| == 3 {
      Three(s, unblock, block, again);
    } else if |steps| == 2 {
      Two(s, unblock, block);
    } else {
      ApplyAllOne(s, steps[0]);
    }
  }

  /** Every block request, whatever the commands report and do: a target that was enforced still
      is, and a new one is, exactly when RuleBacks holds. */
  lemma BlockEnforcedExactly(cfg: Config, s: Sys, req: Request, clk: Clock, io: BlockIo)
    requires req.target.Some? && clk.Monotone() && Enforced(s, Normalize(req.target.value))
    ensures Enforced(ApplyAll(s, BlockSteps(cfg, s, req, clk, io)), Normalize(req.target.value))
        <==> RuleBacks(cfg, s, req, clk, io)
  {
    var t := Normalize(req.target.value);
    match Decide(cfg, s, req, clk)
    case Fresh => FreshEnforcedExactly(cfg, s, t, req, clk, io);
    case Extend(prev) => ExtensionEnforcedExactly(cfg, s, t, req, clk, io, prev);
    case _ => NoActionChangesNothing(cfg, s, req, clk, io);
  }

  /** What firewalld does with a rule that is there already: nothing, and the agent takes the
      ALREADY_ENABLED for a success. */
  ghost predicate AddsOnce(rules: map<Target, Option<Nanos>>, t: Target, at: Nanos, r: CmdResult) {
    r.ok ==> (r.effect <==> !RuleActive(rules, t, at))
  }

  /** A rule that is still active but ends before `expiry`. */
  ghost predicate ShortRule(rules: map<Target, Option<Nanos>>, t: Target, at: Nanos, expiry: Nanos) {
    RuleActive(rules, t, at) && !Outlasts(rules[t], expiry)
  }

  /** With such commands a successful fresh block is enforced exactly when no active rule of its
      target ends before the new ban; and a successful extension on firewalld exactly when the
      removal of the old rule, whose failure goes unnoticed, left no such rule. */
  lemma ShortRuleIsKept(cfg: Config, s: Sys, req: Request, clk: Clock, io: BlockIo)
    requires BlockOutcome(cfg, s, req, clk, io) == Applied && clk.Monotone()
    requires var t, d := Normalize(req.target.value), Decide(cfg, s, req, clk);
             var removed := d.Extend? && !NeedsExplicitUnban(cfg.backend) && io.unblock.effect;
             AddsOnce(if removed then s.rules - {t} else s.rules, t, clk.apply, io.block)
    ensures var t, d := Normalize(req.target.value), Decide(cfg, s, req, clk);
            var removed := d.Extend? && !NeedsExplicitUnban(cfg.backend) && io.unblock.effect;
            Enforced(ApplyAll(s, BlockSteps(cfg, s, req, clk, io)), t)
            <==> removed || !ShortRule(s.rules, t, clk.apply, BanExpiry(req.banSecs, clk.expiry))
  {
    hide ApplyAll, BlockSteps;
    AppliedMeansBlocked(cfg, s, req, clk, io);
  }

  /** The guard can fail without any fault: firewalld's own timeout starts when the command is
      run, `delay` after the expiry was computed, so a rule outlives its ban; a target blocked
      again in that gap keeps the old rule, and when that ends the new ban is live with no rule. */
  lemma ReblockInGapLosesRule(cfg: Config, t: Target, secs: int, delay: Nanos, at: Nanos, row: map<Target, Row>)
    requires cfg.backend == Firewalld && Normalize(t) == t && !IsPrivateIp(t.addr)
    requires secs > 0 && secs * SECOND <= at < secs * SECOND + delay && delay < at
    ensures var req := Request(Some(t), "manual", secs);
            var added, already := CmdResult(true, true), CmdResult(true, false);
            var first := BlockCall(req, Clock(0, 0, 0, delay, delay), BlockIo(true, true, true, added, added, added));
            var again := BlockCall(req, Clock(at, at, at, at, at), BlockIo(true, true, true, added, already, added));
            var s := Sys(map[], map[], row, {}, map[]);
            var mid, end := RunBlocks(cfg, s, [first]), RunBlocks(cfg, s, [first, again]);
            var over := secs * SECOND + delay;
            && BlockOutcome(cfg, mid, again.req, again.clk, again.io) == Applied
            && AddsOnce(mid.rules, t, at, again.io.block)
            && LiveIn(end.mem, t, over) && !RuleActive(end.rules, t, over)
  {
    hide ApplyAll;
    var req := Request(Some(t), "manual", secs);
    var added, already := CmdResult(true, true), CmdResult(true, false);
    var first := BlockCall(req, Clock(0, 0, 0, delay, delay), BlockIo(true, true, true, added, added, added));
    var again := BlockCall(req, Clock(at, at, at, at, at), BlockIo(true, true, true, added, already, added));
    var s := Sys(map[], map[], row, {}, map[]);
    var mid := RunBlocks(cfg, s, [first]);
    RunBlocksNext(cfg, s, [], first);
    RunBlocksNext(cfg, s, [first], again);
    assert [] + [first] == [first] && [first] + [again] == [first, again];
    FreshEffect(cfg, s, t, req, first.clk, first.io);
    assert Decide(cfg, s, req, first.clk) == Fresh;
    assert mid.mem == map[t := Entry(secs * SECOND, "manual")];
    assert mid.rules == map[t := Some(delay + secs * SECOND)];
    assert Decide(cfg, mid, req, again.clk) == Fresh;
    FreshEffect(cfg, mid, t, req, again.clk, again.io);
  }

  lemma RunBlocksNext(cfg: Config, s: Sys, calls: seq<BlockCall>, c: BlockCall)
    ensures var mid := RunBlocks(cfg, s, calls);
            RunBlocks(cfg, s, calls + [c]) == ApplyAll(mid, BlockSteps(cfg, mid, c.req, c.clk, c.io))
    ensures calls == [] ==> RunBlocks(cfg, s, calls) == s
  {
    assert (calls + [c])[..|calls|] == calls;
  }

  lemma FallbackOutlasts(b: Backend, expiry: Nanos, at: Nanos)
    ensures Outlasts(RuleUntil(b, RemainingSecs(expiry, at), at), expiry)
  {
  }

  // ---- one reconciliation pass ----

  /** A listed ban is present in the firewall, in whatever spelling. */
  ghost predicate Present(rules: map<Target, Option<Nanos>>, t: Target, at: Nanos) {
    exists k :: RuleActive(rules, k, at) && FwKey(k) == FwKey(t)
  }

  /** A successful command leaves the rule there, added now or before. */
  ghost predicate HonestBlocks(s: Sys, io: ReconcileIo) {
    forall t :: io.block(t).ok && !io.block(t).effect ==> RuleActive(s.rules, t, io.listAt)
  }

  ghost predicate PassTimes(io: ReconcileIo) {
    io.now <= io.listAt && forall t :: io.listAt <= io.recheck(t) <= io.at(t)
  }

  /** From arbitrary firewall contents: after a pass whose listing succeeded, no rule is gone,
      nothing of the agent changed, every ban live throughout was already listed or is now
      re-applied with a rule that outlasts it, unless its command failed. */
  lemma ReconcileStabilises(cfg: Config, s: Sys, order: seq<Target>, io: ReconcileIo)
    requires Enumerates(order, s.mem.Keys) && io.setupOk && io.listOk
    requires HonestBlocks(s, io) && PassTimes(io)
    ensures var end := ApplyAll(s, ReconcileSteps(cfg, s, order, io));
            && end == s.(rules := end.rules)
            && s.rules.Keys <= end.rules.Keys
            && (forall k <- s.rules :: RuleActive(s.rules, k, io.listAt) ==> end.rules[k] == s.rules[k])
            && (forall t <- s.mem :: io.recheck(t) < s.mem[t].expiry ==>
                  || Present(s.rules, t, io.listAt)
                  || !io.block(t).ok
                  || (t in end.rules && Outlasts(end.rules[t], s.mem[t].expiry)))
  {
    ReconcileEffect(cfg, s, order, io);
    var end := ApplyAll(s, ReconcileSteps(cfg, s, order, io));
    forall k | k in s.rules && RuleActive(s.rules, k, io.listAt) ensures end.rules[k] == s.rules[k] {
      assert FwKey(k) in ListedKeys(s.rules, io.listAt);
    }
    forall t | t in s.mem && io.recheck(t) < s.mem[t].expiry && !Present(s.rules, t, io.listAt) && io.block(t).ok
      ensures t in end.rules && Outlasts(end.rules[t], s.mem[t].expiry)
    {
      assert !RuleActive(s.rules, t, io.listAt);
      assert FwKey(t) !in ListedKeys(s.rules, io.listAt);
      assert Restored(s, t, io);
      ReappliedOutlasts(cfg, s, t, io);
    }
  }

  /** The re-applied TTL: more than what remains at the snapshot, at most a second more, and
      none exactly from 50 years on. */
  lemma ReappliedOutlasts(cfg: Config, s: Sys, t: Target, io: ReconcileIo)
    requires Missing(s, t, io) && io.now <= io.at(t)
    ensures Outlasts(RestoredRule(cfg, s, t, io), s.mem[t].expiry)
    ensures cfg.backend == Firewalld ==>
              var left := s.mem[t].expiry - io.now;
              && (RestoredRule(cfg, s, t, io).None? <==> left >= FIFTY_YEARS)
              && (left < FIFTY_YEARS ==> left < RestoredRule(cfg, s, t, io).value - io.at(t) <= left + SECOND)
  {
    RemainingCoversBan(s.mem[t].expiry, io.now);
  }

  /** The iteration order of the map makes no difference. */
  lemma ReconcileOrderIrrelevant(cfg: Config, s: Sys, order1: seq<Target>, order2: seq<Target>, io: ReconcileIo)
    requires Enumerates(order1, s.mem.Keys) && Enumerates(order2, s.mem.Keys)
    ensures ApplyAll(s, ReconcileSteps(cfg, s, order1, io))
         == ApplyAll(s, ReconcileSteps(cfg, s, order2, io))
  {
    hide ApplyAll, ReconcileSteps, Restored, RestoredRule;
    ReconcileEffect(cfg, s, order1, io);
    ReconcileEffect(cfg, s, order2, io);
    var end1, end2 := ApplyAll(s, ReconcileSteps(cfg, s, order1, io)), ApplyAll(s, ReconcileSteps(cfg, s, order2, io));
    assert end1.rules == end2.rules;
  }

  /** A ban one pass re-applied is not re-applied by a later one while it lives: the loop
      settles, and does not pile up rules. */
  lemma ReconcileSettles(cfg: Config, s: Sys, order: seq<Target>, io: ReconcileIo, later: ReconcileIo, t: Target)
    requires Enumerates(order, s.mem.Keys) && io.setupOk && io.listOk
    requires Restored(s, t, io) && io.now <= io.at(t)
    requires later.now <= later.listAt <= later.recheck(t)
    ensures !Missing(ApplyAll(s, ReconcileSteps(cfg, s, order, io)), t, later)
  {
    ReconcileEffect(cfg, s, order, io);
    ReappliedOutlasts(cfg, s, t, io);
    var end := ApplyAll(s, ReconcileSteps(cfg, s, order, io));
    if later.recheck(t) < s.mem[t].expiry {
      assert RuleActive(end.rules, t, later.listAt);
      assert FwKey(t) in ListedKeys(end.rules, later.listAt);
    }
  }
}
