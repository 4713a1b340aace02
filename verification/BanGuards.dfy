/** What blockIPWithTTL answers and what it leaves alone, read off the request and the entry of its
    target; and what an unblock and an expiry pass achieve. */
module BanGuards {
  import opened Ipv4
  import opened TargetText
  import opened Countries
  import opened Bans
  import opened BanEffects
  import opened BanOutcomes
  import opened BanSafety
  import opened BanSilence
  import opened Time

  // ---- which requests are refused ----

  /** The ranges of RFC 1918 (section 3), loopback and link-local, and 0.0.0.0, by number. */
  predicate Internal(ip: Addr) {
    || 0x0A00_0000 <= ip < 0x0B00_0000
    || 0xAC10_0000 <= ip < 0xAC20_0000
    || 0xC0A8_0000 <= ip < 0xC0A9_0000
    || 0x7F00_0000 <= ip < 0x8000_0000
    || 0xA9FE_0000 <= ip < 0xA9FF_0000
    || ip == 0
  }

  lemma InternalExact(ip: Addr)
    ensures Internal(ip) <==> IsPrivateIp(ip)
  {
    hide InternalAddress;
    InternalByTop(ip);
  }

  /** The first address of a target. */
  function Base(t: Target): Addr { Normalize(t).addr }

  /** The request is exempt for its country: it is not the operator's, and the base address of its
      target has a country that is configured. */
  ghost predicate Exempt(cfg: Config, req: Request)
    requires req.target.Some?
  {
    && req.moduleName != "manual" && cfg.geo.Some?
    && OnList(cfg.allowedCountries, cfg.geo.value(FormatAddr(Base(req.target.value))))
  }

  /** The time asked for: so many seconds, or a hundred years. */
  function Until(req: Request, at: Nanos): Nanos {
    if req.banSecs > 0 then at + req.banSecs * 1_000_000_000 else at + 100 * 365 * 24 * 3600 * 1_000_000_000
  }

  /** A request is skipped if and only if its target begins with an internal address, or is exempt
      for its country; it then takes no step and changes nothing. */
  lemma SkippedExactly(cfg: Config, s: Sys, req: Request, clk: Clock, io: BlockIo)
    requires req.target.Some?
    ensures BlockOutcome(cfg, s, req, clk, io) == Skipped
       <==> Internal(Base(req.target.value)) || Exempt(cfg, req)
    ensures BlockOutcome(cfg, s, req, clk, io) == Skipped ==>
              BlockSteps(cfg, s, req, clk, io) == [] && ApplyAll(s, BlockSteps(cfg, s, req, clk, io)) == s
  {
    hide IsPrivateIp, VetoedByCountry, Internal, FormatAddr, OnList;
    var ip := Base(req.target.value);
    InternalExact(ip);
    AddrChars(ip);
    VetoExact(cfg.allowedCountries, cfg.geo, FormatAddr(ip), FormatAddr(ip));
  }

  /** The answer to every request, from the request, the entry of its target and the reports of the
      commands alone. An unreadable target fails; what is not skipped is a duplicate if and only if
      its target is live and asked for at most a minute more; a longer ban extends the live one, and
      is applied if the new rule is reported added (on firewalld: and the old one removed); all else
      is applied exactly when the rule is reported added. */
  lemma AnsweredExactly(cfg: Config, s: Sys, req: Request, clk: Clock, io: BlockIo)
    ensures var outcome := BlockOutcome(cfg, s, req, clk, io);
            if req.target.None? then outcome == Failed
            else
              var t := Normalize(req.target.value);
              var live := t in s.mem && clk.check < s.mem[t].expiry;
              if Internal(t.addr) || Exempt(cfg, req) then outcome == Skipped
              else if live && Until(req, clk.expiry) <= s.mem[t].expiry + 60_000_000_000 then outcome == Already
              else outcome == if io.block.ok && (live && cfg.backend == Firewalld ==> io.unblock.ok) then Applied
                              else Failed
  {
    hide IsPrivateIp, VetoedByCountry, Internal, Exempt, Normalize;
    if req.target.Some? { SkippedExactly(cfg, s, req, clk, io); }
  }

  /** Whatever is not refused and not a duplicate: an applied request leaves the time asked for and
      the module in the map, and in the store, if that took it, with the time cut to whole seconds;
      a rule that a first block really added outlives the ban by the delay of its command, on
      firewalld, and has no end of its own on the other backends or without a length. */
  lemma AppliedAsAsked(cfg: Config, s: Sys, req: Request, clk: Clock, io: BlockIo)
    requires BlockOutcome(cfg, s, req, clk, io) == Applied && clk.Monotone()
    ensures var t := Normalize(req.target.value);
            var end := ApplyAll(s, BlockSteps(cfg, s, req, clk, io));
            var until := Until(req, clk.expiry);
            && t in end.mem && end.mem[t] == Entry(until, req.moduleName)
            && (io.save ==> t in end.store && end.store[t].moduleName == req.moduleName
                            && until < (end.store[t].expiresAt + 1) * 1_000_000_000
                            && end.store[t].expiresAt * 1_000_000_000 <= Until(req, clk.save))
            && (!(t in s.mem && clk.check < s.mem[t].expiry) && io.block.effect ==>
                  && t in end.rules
                  && end.rules[t] == if cfg.backend == Firewalld && req.banSecs > 0
                                     then Some(until + (clk.apply - clk.expiry)) else None)
  {
    hide ApplyAll, BlockSteps, IsPrivateIp, VetoedByCountry, Normalize;
    var t := Normalize(req.target.value);
    StepsAreThose(cfg, s, req, clk, io);
    UntilExact(req, clk.expiry);
    UntilExact(req, clk.save);
    if t in s.mem && clk.check < s.mem[t].expiry {
      ExtendEffect(cfg, s, t, req, clk, io, s.mem[t]);
      hide ExtendSteps, ExtendRuleSteps;
      UnixMonotone(BanExpiry(req.banSecs, clk.expiry), BanExpiry(req.banSecs, clk.save));
    } else {
      FreshEffect(cfg, s, t, req, clk, io);
    }
  }

  lemma UntilExact(req: Request, at: Nanos)
    ensures var until := Until(req, at);
            && until == BanExpiry(req.banSecs, at)
            && UnixSeconds(until) * 1_000_000_000 <= until < (UnixSeconds(until) + 1) * 1_000_000_000
  {
  }

  lemma StepsAreThose(cfg: Config, s: Sys, req: Request, clk: Clock, io: BlockIo)
    requires BlockOutcome(cfg, s, req, clk, io) == Applied
    ensures var t := Normalize(req.target.value);
            BlockSteps(cfg, s, req, clk, io) ==
            if t in s.mem && clk.check < s.mem[t].expiry then ExtendSteps(cfg, t, req, clk, io, s.mem[t])
            else FreshSteps(cfg, t, req, clk, io)
    ensures Decide(cfg, s, req, clk).Fresh? <==>
              var t := Normalize(req.target.value); !(t in s.mem && clk.check < s.mem[t].expiry)
    ensures Decide(cfg, s, req, clk).Extend? ==> ExtensionOk(cfg, io)
    ensures Decide(cfg, s, req, clk).Fresh? ==> io.block.ok
  {
    hide FreshSteps, ExtendSteps, IsPrivateIp, VetoedByCountry;
  }

  predicate Written(steps: seq<Step>, t: Target) { SaveStep(steps, t) && DeleteBan(t, true) !in steps }

  predicate SaveStep(steps: seq<Step>, t: Target) { exists step <- steps :: step.SaveBan? && step.t == t && step.ok }

  lemma {:induction false} WrittenHasRow(s: Sys, steps: seq<Step>, t: Target)
    requires Written(steps, t) && forall step <- steps :: !step.PruneBans?
    ensures t in ApplyAll(s, steps).store
  {
    var init, last := steps[..|steps| - 1], steps[|steps| - 1];
    assert steps == init + [last] && !last.PruneBans?;
    if !(last.SaveBan? && last.t == t && last.ok) {
      WrittenHasRow(s, init, t);
    }
  }

  /** Write-ahead: cut off after any number of its steps, a request that asked the firewall for a rule
      has its ban in the store, if that took it, unless a failure has already taken it out again. */
  lemma WriteAhead(cfg: Config, s: Sys, req: Request, clk: Clock, io: BlockIo, k: nat)
    requires req.target.Some? && io.save && k <= |BlockSteps(cfg, s, req, clk, io)|
    requires var asked := BlockSteps(cfg, s, req, clk, io)[..k];
             (exists step <- asked :: step.FwBlock?) && DeleteBan(Normalize(req.target.value), true) !in asked
    ensures Normalize(req.target.value) in ApplyAll(s, BlockSteps(cfg, s, req, clk, io)[..k]).store
  {
    var t, asked := Normalize(req.target.value), BlockSteps(cfg, s, req, clk, io)[..k];
    SavedBeforeAsked(cfg, s, req, clk, io, k);
    WrittenHasRow(s, asked, t);
  }

  lemma SavedBeforeAsked(cfg: Config, s: Sys, req: Request, clk: Clock, io: BlockIo, k: nat)
    requires req.target.Some? && io.save && k <= |BlockSteps(cfg, s, req, clk, io)|
    requires exists step <- BlockSteps(cfg, s, req, clk, io)[..k] :: step.FwBlock?
    ensures SaveStep(BlockSteps(cfg, s, req, clk, io)[..k], Normalize(req.target.value))
    ensures forall step <- BlockSteps(cfg, s, req, clk, io)[..k] :: !step.PruneBans?
  {
    hide IsPrivateIp, VetoedByCountry, Normalize;
    var steps := BlockSteps(cfg, s, req, clk, io);
    assert !steps[0].FwBlock? && !steps[1].FwBlock?;
    assert k >= 3 && steps[..k][1] == steps[1];
  }

  /** The ban is there again after a restart that comes a second or more before its end, with the
      module asked for, silenced, and for the same time up to that second; after its end it is not. */
  lemma PersistedBanReturns(cfg: Config, s: Sys, req: Request, clk: Clock, io: BlockIo, op: Op)
    requires BlockOutcome(cfg, s, req, clk, io) == Applied && clk.Monotone() && io.save
    requires op.Restart? && Allowed(ApplyAll(s, BlockSteps(cfg, s, req, clk, io)), op)
    ensures var t, until := Normalize(req.target.value), Until(req, clk.expiry);
            var down := ApplyAll(s, BlockSteps(cfg, s, req, clk, io));
            var end := ApplyAll(down, StepsOf(cfg, down, op));
            && (op.now + 1_000_000_000 <= until ==>
                  && t in end.mem && end.mem[t].moduleName == req.moduleName && NetOf(t) in end.silenced
                  && until - 1_000_000_000 < end.mem[t].expiry <= Until(req, clk.save))
            && (op.now >= Until(req, clk.save) ==> t !in end.mem)
  {
    hide ApplyAll, BlockSteps, RestartSteps, BlockOutcome, Normalize, NetOf, Until;
    var down := ApplyAll(s, BlockSteps(cfg, s, req, clk, io));
    AppliedAsAsked(cfg, s, req, clk, io);
    var up := RestartEffect(cfg, down, op.rowOrder, op.now, op.order, op.recon);
  }

  // ---- what an unblock achieves ----

  /** The target is in neither map and not in the store. */
  ghost predicate Absent(s: Sys, t: Target) { t !in s.mem && t !in s.nets && t !in s.store }

  /** Unblock: the target leaves both maps and its network the silenced set; a deletion that works
      takes its row, a removal that works its rule, and one that does not leaves all rows, all rules.
      Everything about every other target stays, and every other network's silence. */
  lemma UnblockAchieves(s: Sys, target: Target, deleteOk: bool, unblock: CmdResult)
    ensures var t := Normalize(target);
            var end := ApplyAll(s, UnblockSteps(Some(target), deleteOk, unblock));
            && t !in end.mem && t !in end.nets && NetOf(t) !in end.silenced
            && (if deleteOk then t !in end.store else end.store == s.store)
            && (if unblock.effect then t !in end.rules else end.rules == s.rules)
            && (forall u :: u != t ==> FactsOf(end, u) == FactsOf(s, u))
            && (forall n :: n != NetOf(t) ==> (n in end.silenced <==> n in s.silenced))
    ensures ApplyAll(s, UnblockSteps(None, deleteOk, unblock))
         == s
  {
    hide NetOf;
    UnblockEffect(s, Normalize(target), deleteOk, unblock);
  }

  // ---- what an expiry pass achieves ----

  /** What is deleted and not saved again has no row. */
  lemma {:induction false} RowLost(s: Sys, steps: seq<Step>, t: Target)
    requires forall step <- steps :: !step.SaveBan?
    requires t !in s.store || DeleteBan(t, true) in steps
    ensures t !in ApplyAll(s, steps).store
  {
    if steps != [] {
      var init, last := steps[..|steps| - 1], steps[|steps| - 1];
      assert steps == init + [last] && !last.SaveBan?;
      if last != DeleteBan(t, true) { RowLost(s, init, t); }
    }
  }

  ghost predicate RemovesRule(step: Step, t: Target) { step.FwUnblock? && step.t == t && step.res.effect }

  lemma {:induction false} RuleLost(s: Sys, steps: seq<Step>, t: Target)
    requires forall step <- steps :: !step.FwBlock?
    requires t !in s.rules || exists step <- steps :: RemovesRule(step, t)
    ensures t !in ApplyAll(s, steps).rules
  {
    if steps != [] {
      var init, last := steps[..|steps| - 1], steps[|steps| - 1];
      assert steps == init + [last] && !last.FwBlock?;
      if !RemovesRule(last, t) { RuleLost(s, init, t); }
    }
  }

  predicate LeavesRow(step: Step, t: Target) {
    match step
    case SaveBan(u, _, _) => u != t
    case DeleteBan(u, ok) => u != t || !ok
    case PruneBans(_, ok) => !ok
    case _ => true
  }

  predicate LeavesRule(step: Step, t: Target) {
    match step
    case FwBlock(u, _, res) => u != t || !res.effect
    case FwUnblock(u, res) => u != t || !res.effect
    case _ => true
  }

  lemma {:induction false} RowLeft(s: Sys, steps: seq<Step>, t: Target)
    requires forall step <- steps :: LeavesRow(step, t)
    ensures FactsOf(ApplyAll(s, steps), t).row
         == FactsOf(s, t).row
  {
    if steps != [] {
      assert LeavesRow(steps[|steps| - 1], t);
      RowLeft(s, steps[..|steps| - 1], t);
    }
  }

  lemma {:induction false} RuleLeft(s: Sys, steps: seq<Step>, t: Target)
    requires forall step <- steps :: LeavesRule(step, t)
    ensures FactsOf(ApplyAll(s, steps), t).rule
         == FactsOf(s, t).rule
  {
    if steps != [] {
      assert LeavesRule(steps[|steps| - 1], t);
      RuleLeft(s, steps[..|steps| - 1], t);
    }
  }

  lemma {:induction false} CleanupHas(cfg: Config, ts: seq<Target>, io: Target -> ExpireIo, t: Target)
    requires t in ts
    ensures DeleteBan(t, io(t).delete) in CleanupSteps(cfg, ts, io)
    ensures Unsilence(t) in CleanupSteps(cfg, ts, io)
    ensures cfg.backend != Firewalld ==> FwUnblock(t, io(t).unblock) in CleanupSteps(cfg, ts, io)
  {
    var last := |ts| - 1;
    if t != ts[last] {
      assert ts == ts[..last] + [ts[last]];
      CleanupHas(cfg, ts[..last], io, t);
    }
  }

  lemma {:induction false} CleanupOnly(cfg: Config, ts: seq<Target>, io: Target -> ExpireIo)
    ensures forall step <- CleanupSteps(cfg, ts, io) ::
              && (step.FwUnblock? ==> cfg.backend != Firewalld && step.t in ts && step.res == io(step.t).unblock)
              && (step.DeleteBan? ==> step.t in ts && step.ok == io(step.t).delete)
  {
    if ts != [] {
      var last := |ts| - 1;
      CleanupOnly(cfg, ts[..last], io);
      assert forall u :: u in ts[..last] ==> u in ts;
    }
  }

  lemma ExpireOnly(cfg: Config, s: Sys, order: seq<Target>, now: Nanos, io: Target -> ExpireIo, t: Target)
    requires Enumerates(order, s.mem.Keys)
    ensures var steps := ExpireSteps(cfg, s, order, now, io);
            var ends := t in s.mem && now > s.mem[t].expiry;
            && (forall step <- steps :: !step.SaveBan? && !step.FwBlock? && !step.Silence?)
            && (ends ==> Unsilence(t) in steps && (io(t).delete ==> DeleteBan(t, true) in steps)
                         && (cfg.backend != Firewalld ==> FwUnblock(t, io(t).unblock) in steps))
            && (!ends || !io(t).delete ==> forall step <- steps :: LeavesRow(step, t))
            && (!ends || cfg.backend == Firewalld || !io(t).unblock.effect ==>
                  forall step <- steps :: LeavesRule(step, t))
  {
    var ts := Expired(s.mem, order, now);
    hide CleanupSteps, Expired;
    ExpiredExact(s.mem, order, now);
    CleanupTargets(cfg, ts, io);
    CleanupOnly(cfg, ts, io);
    if t in ts { CleanupHas(cfg, ts, io, t); }
  }

  /** One pass of the expiry loop: a target whose ban is over leaves both maps and is not silenced any
      more; its row goes exactly when its deletion works, its rule exactly when the backend needs it
      taken away and the removal works. Nothing about any other target changes. */
  lemma ExpireAchieves(cfg: Config, s: Sys, order: seq<Target>, now: Nanos, io: Target -> ExpireIo, t: Target)
    requires Enumerates(order, s.mem.Keys)
    ensures var end := ApplyAll(s, ExpireSteps(cfg, s, order, now, io));
            var before, after := FactsOf(s, t), FactsOf(end, t);
            if t in s.mem && now > s.mem[t].expiry
            then && after.entry == None && after.net == None && NetOf(t) !in end.silenced
                 && after.row == (if io(t).delete then None else before.row)
                 && after.rule == (if cfg.backend != Firewalld && io(t).unblock.effect then None else before.rule)
            else after == before
  {
    hide ApplyAll, ExpireSteps, NetOf;
    var steps := ExpireSteps(cfg, s, order, now, io);
    ExpireOnly(cfg, s, order, now, io, t);
    ExpireMaps(cfg, s, order, now, io);
    if t in s.mem && now > s.mem[t].expiry {
      assert Unsilences(Unsilence(t), NetOf(t));
      SilenceLost(s, steps, NetOf(t));
      if io(t).delete { RowLost(s, steps, t); } else { RowLeft(s, steps, t); }
      if cfg.backend != Firewalld && io(t).unblock.effect {
        assert RemovesRule(FwUnblock(t, io(t).unblock), t);
        RuleLost(s, steps, t);
      } else {
        RuleLeft(s, steps, t);
      }
    } else {
      RowLeft(s, steps, t);
      RuleLeft(s, steps, t);
    }
  }

  // ---- runs: nobody is blocked unasked ----

  /** The operation may block t: it is a request of it that does not begin with an internal address,
      or an import of one of its rules. */
  predicate MayBlock(op: Op, t: Target) {
    match op
    case Block(req, _, _) => req.target.Some? && Normalize(req.target.value) == t && !Internal(Base(t))
    case Import(present, _, _) => t in present
    case _ => false
  }

  predicate EventMayBlock(ev: Event, t: Target) {
    match ev
    case Serve(op) => MayBlock(op, t)
    case Reload(_, _) => false
    case Crash(op, _, _, restart) => MayBlock(op, t) || MayBlock(restart, t)
  }

  /** From outside, a rule of t comes up. */
  predicate BringsRule(ev: Event, t: Target) {
    match ev
    case Serve(_) => false
    case Reload(rules, _) => t in rules
    case Crash(_, _, rules, _) => t in rules
  }

  predicate Adds(step: Step, t: Target) {
    match step
    case Insert(u, _) => u == t
    case Replace(u, _) => u == t
    case SaveBan(u, _, _) => u == t
    case FwBlock(u, _, _) => u == t
    case _ => false
  }

  lemma {:induction false} AbsentKept(s: Sys, steps: seq<Step>, t: Target)
    requires Absent(s, t) && forall step <- steps :: !Adds(step, t)
    ensures var end := ApplyAll(s, steps);
            Absent(end, t) && (t in end.rules ==> t in s.rules)
  {
    if steps != [] {
      hide Absent, Adds, Apply;
      AbsentKept(s, steps[..|steps| - 1], t);
      AbsentKeptOnce(ApplyAll(s, steps[..|steps| - 1]), steps[|steps| - 1], t);
    }
  }

  lemma AbsentKeptOnce(s: Sys, step: Step, t: Target)
    requires Absent(s, t) && !Adds(step, t)
    ensures Absent(Apply(s, step), t) && (t in Apply(s, step).rules ==> t in s.rules)
  {
  }

  lemma {:induction false} LoadAdds(s: Sys, rows: map<Target, Row>, order: seq<Target>)
    ensures forall step <- LoadSteps(s, rows, order) :: step.Silence? || (step.Insert? && step.t in rows)
  {
    if order != [] { LoadAdds(s, rows, order[..|order| - 1]); }
  }

  lemma {:induction false} ImportAdds(s: Sys, present: seq<Target>, e: Entry)
    ensures forall step <- ImportSteps(s, present, e) :: step.Silence? || (step.Insert? && step.t in present)
  {
    if present != [] {
      assert forall t <- present[..|present| - 1] :: t in present;
      ImportAdds(s, present[..|present| - 1], e);
    }
  }

  lemma {:induction false} ReapplyAdds(cfg: Config, s: Sys, order: seq<Target>, io: ReconcileIo)
    ensures forall step <- ReapplySteps(cfg, s, order, io) :: step.FwBlock? && step.t in s.mem
  {
    if order != [] { ReapplyAdds(cfg, s, order[..|order| - 1], io); }
  }

  lemma RestartAdds(cfg: Config, s: Sys, op: Op, t: Target)
    requires op.Restart? && Absent(s, t)
    ensures forall step <- StepsOf(cfg, s, op) :: !Adds(step, t)
  {
    hide ApplyAll, LoadSteps, ReapplySteps;
    var empty := Apply(s, Reset);
    var load := LoadSteps(empty, ActiveRows(s.store, op.now), op.rowOrder);
    LoadAdds(empty, ActiveRows(s.store, op.now), op.rowOrder);
    AbsentKept(empty, load, t);
    ReapplyAdds(cfg, ApplyAll(empty, load), op.order, op.recon);
  }

  lemma BlockAdds(cfg: Config, s: Sys, req: Request, clk: Clock, io: BlockIo, t: Target)
    requires req.target.Some? && Normalize(req.target.value) == t ==> Internal(Base(t))
    ensures forall step <- BlockSteps(cfg, s, req, clk, io) :: !Adds(step, t)
  {
    hide IsPrivateIp, VetoedByCountry, Internal, Normalize;
    if req.target.Some? {
      NormalizeSound(req.target.value);
      SkippedExactly(cfg, s, req, clk, io);
    }
  }

  lemma NothingAdds(cfg: Config, s: Sys, op: Op, t: Target)
    requires Absent(s, t) && Allowed(s, op) && !MayBlock(op, t)
    ensures forall step <- StepsOf(cfg, s, op) :: !Adds(step, t)
  {
    hide ApplyAll, BlockSteps, ExpireSteps, ReapplySteps, RestartSteps, ImportSteps, Internal;
    match op
    case Block(req, clk, io) => BlockAdds(cfg, s, req, clk, io, t);
    case Unblock(_, _, _, _) =>
    case Expire(order, now, io) => ExpireAdds(cfg, s, order, now, io, t);
    case Reconcile(order, _, io) => ReapplyAdds(cfg, s, order, io);
    case Prune(_, _) =>
    case Import(present, entry, _) => ImportAdds(Apply(s, Reset), present, entry);
    case Restart(_, _, _, _, _) => RestartAdds(cfg, s, op, t);
  }

  lemma ExpireAdds(cfg: Config, s: Sys, order: seq<Target>, now: Nanos, io: Target -> ExpireIo, t: Target)
    ensures forall step <- ExpireSteps(cfg, s, order, now, io) :: !Adds(step, t)
  {
    CleanupTargets(cfg, Expired(s.mem, order, now), io);
  }

  lemma EventKeepsAbsent(cfg: Config, w: World, ev: Event, t: Target)
    requires Possible(cfg, w, ev) && Absent(w.s, t) && !EventMayBlock(ev, t)
    ensures var end := Next(cfg, w, ev).s;
            Absent(end, t) && (t in end.rules ==> t in w.s.rules || BringsRule(ev, t))
  {
    hide ApplyAll, MayBlock, StepsOf, Allowed;
    match ev
    case Serve(op) =>
      NothingAdds(cfg, w.s, op, t);
      AbsentKept(w.s, StepsOf(cfg, w.s, op), t);
    case Reload(_, _) =>
    case Crash(op, k, _, restart) =>
      var steps, down := StepsOf(cfg, w.s, op), CrashedState(cfg, w.s, ev);
      NothingAdds(cfg, w.s, op, t);
      assert forall step <- steps[..k] :: step in steps;
      AbsentKept(w.s, steps[..k], t);
      NothingAdds(cfg, down, restart, t);
      AbsentKept(down, StepsOf(cfg, down, restart), t);
  }

  /** Over every run: a target that is absent stays absent, through operations, crashes at any step
      and starts of either kind, until a request or an import that may block it; and it has no rule
      unless it had one or one came up from outside. */
  lemma {:induction false} AbsentOverRuns(cfg: Config, w: World, events: seq<Event>, k: nat, n: nat, t: Target)
    requires PossibleRun(cfg, w, events) && k <= n <= |events|
    requires Absent(Run(cfg, w, events[..k]).s, t)
    requires forall i :: k <= i < n ==> !EventMayBlock(events[i], t)
    ensures var end := Run(cfg, w, events[..n]).s;
            && Absent(end, t)
            && (t in end.rules ==>
                  t in Run(cfg, w, events[..k]).s.rules || exists i :: k <= i < n && BringsRule(events[i], t))
  {
    hide Run, Next, Possible, EventMayBlock, BringsRule, Absent;
    if k < n {
      AbsentOverRuns(cfg, w, events, k, n - 1, t);
      RunNext(cfg, w, events, n - 1);
      EventKeepsAbsent(cfg, Run(cfg, w, events[..n - 1]), events[n - 1], t);
    }
  }

  /** The event unblocks the target, and the deletion of its row works. */
  predicate IsUnblock(ev: Event, target: Target) {
    ev.Serve? && ev.op.Unblock? && ev.op.target == Some(target) && ev.op.deleteOk
  }

  /** Hence an unblocked target stays unblocked: in neither map and without a row in every later state
      of the run until it is asked for anew; and, if its removal worked, without a rule until one
      comes up from outside. No restart brings the ban back. */
  lemma UnblockedStaysUnblocked(cfg: Config, w: World, events: seq<Event>, k: nat, n: nat, target: Target)
    requires PossibleRun(cfg, w, events) && k < n <= |events|
    requires forall i :: k < i < n ==> !EventMayBlock(events[i], Normalize(target))
    ensures var end, t := Run(cfg, w, events[..n]).s, Normalize(target);
            IsUnblock(events[k], target) ==>
              && t !in end.mem && t !in end.nets && t !in end.store
              && (t in end.rules && events[k].op.unblock.effect ==> exists i :: k < i < n && BringsRule(events[i], t))
  {
    hide Run, Possible, EventMayBlock, BringsRule, UnblockSteps;
    RunNext(cfg, w, events, k);
    if IsUnblock(events[k], target) {
      UnblockAchieves(Run(cfg, w, events[..k]).s, target, true, events[k].op.unblock);
      AbsentOverRuns(cfg, w, events, k + 1, n, Normalize(target));
    }
  }

  /** The firewall lists a rule of t to a start that cannot read the store. */
  predicate Lists(ev: Event, t: Target) {
    match ev
    case Serve(op) => op.Import? && t in op.present
    case Reload(_, _) => false
    case Crash(op, _, _, restart) => (op.Import? && t in op.present) || (restart.Import? && t in restart.present)
  }

  /** No target that begins with an internal address ever enters the maps or the store, and none enters
      the firewall: neither by a request, of whatever module, nor by a restart, a reconciliation or a
      crash; only a start that cannot read the store takes over a rule that was put there from outside. */
  lemma InternalStaysOut(cfg: Config, w: World, events: seq<Event>, t: Target)
    requires PossibleRun(cfg, w, events) && Absent(w.s, t) && Internal(Base(t))
    requires forall ev <- events :: !Lists(ev, t)
    ensures var end := Run(cfg, w, events).s;
            && t !in end.mem && t !in end.nets && t !in end.store
            && (t in end.rules ==> t in w.s.rules || exists ev <- events :: BringsRule(ev, t))
  {
    hide Run, Possible, BringsRule, Internal, Normalize;
    assert events[..0] == [] && events[..|events|] == events;
    NoEvents(cfg, w);
    forall i | 0 <= i < |events| ensures !EventMayBlock(events[i], t) { assert events[i] in events; }
    AbsentOverRuns(cfg, w, events, 0, |events|, t);
  }

  /** No target begins with an internal address, neither in memory nor in the store. */
  ghost predicate NoneInternal(s: Sys) {
    forall t: Target :: Internal(Base(t)) ==> Absent(s, t)
  }

  lemma CoveringInternal(t: Target, ip: Addr)
    requires !Internal(Base(t)) && Covers(t, ip) && Internal(ip)
    ensures t.Cidr? && 1 <= t.len < 15
    ensures ip != 0 ==> exists n :: InternalNet(n) && Covers(t, n.base)
  {
    hide Internal, InternalAddress, InternalNet, Covers, Normalize;
    InternalExact(Base(t));
    InternalExact(ip);
    if !(t.Cidr? && 1 <= t.len < 15) { PrivateCheckSuffices(t, ip); }
    if ip != 0 { PassingTouchesExactly(t); }
  }

  /** Hence no internal address is ever reported blocked by an entry of its own, nor by a network of 15
      bits or more: over every run without such imports, whatever blocks one is a network of 1 to 14
      bits, and it holds the first address of an internal range. */
  lemma InternalBlockedOnlyBy(cfg: Config, w: World, events: seq<Event>, ip: Addr, now: Nanos, key: Target)
    requires PossibleRun(cfg, w, events) && Inv(w.s, w.promises, w.now) && NoneInternal(w.s)
    requires forall ev <- events, t: Target :: Internal(Base(t)) ==> !Lists(ev, t)
    ensures Internal(ip) && BlockedBy(Run(cfg, w, events).s, Host(ip), now, key) ==>
              && key.Cidr? && 1 <= key.len < 15
              && (ip != 0 ==> exists n :: InternalNet(n) && Covers(key, n.base))
  {
    hide Run, PossibleRun, Internal, IsPrivateIp, InternalNet, Lists;
    var s := Run(cfg, w, events).s;
    RunsAreSafe(cfg, w, events);
    if Internal(Base(key)) { InternalStaysOut(cfg, w, events, key); }
    NormalizeSound(key);
    if Internal(ip) && BlockedBy(s, Host(ip), now, key) {
      assert Covers(key, ip);
      CoveringInternal(key, ip);
    }
  }
}
