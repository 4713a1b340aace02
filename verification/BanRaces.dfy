/** Operations interleaved: what each lock section and each external call keeps in whatever state
    it finds the agent, and what the clean-up of the expiry loop undoes. */
module BanRaces {
  import opened Ipv4
  import opened Bans
  import opened BanEffects
  import opened BanOutcomes
  import opened BanSafety
  import opened BanEnforcement

  /** Every blocked target has its row. */
  ghost predicate Stored(s: Sys) { forall t <- s.mem :: t in s.store }

  // ---- one step, in any interleaving ----

  /** The step keeps every blocked target silenced. */
  ghost predicate KeepsSilence(s: Sys, step: Step) {
    match step
    case Insert(t, _) => NetOf(t) in s.silenced
    case Replace(t, _) => NetOf(t) in s.silenced
    case Unsilence(t) => forall u <- s.mem :: NetOf(u) != NetOf(t)
    case _ => true
  }

  /** The step keeps every blocked target's row. */
  ghost predicate KeepsRows(s: Sys, step: Step) {
    match step
    case Insert(t, _) => t in s.store
    case Replace(t, _) => t in s.store
    case DeleteBan(t, ok) => ok ==> t !in s.mem
    case PruneBans(now, ok) => ok ==> forall t <- s.mem :: t in s.store && s.store[t].expiresAt > UnixSeconds(now)
    case _ => true
  }

  /** The step keeps every blocked target enforced. */
  ghost predicate KeepsRules(s: Sys, step: Step) {
    match step
    case Insert(t, e) => Backed(s, t, e.expiry)
    case Replace(t, e) => Backed(s, t, e.expiry)
    case FwBlock(t, until, res) => res.effect && t in s.mem ==> Outlasts(until, s.mem[t].expiry)
    case FwUnblock(t, res) => res.effect ==> t !in s.mem
    case _ => true
  }

  /** Every lock section and every external call, whichever operations it stands between: each of
      the three relations survives it exactly under its condition. */
  lemma StepKeepsExactly(s: Sys, step: Step)
    ensures BlockedAreSilenced(s) ==> (BlockedAreSilenced(Apply(s, step)) <==> KeepsSilence(s, step))
    ensures Stored(s) ==> (Stored(Apply(s, step)) <==> KeepsRows(s, step))
    ensures AllEnforced(s) ==> (AllEnforced(Apply(s, step)) <==> KeepsRules(s, step))
  {
    if AllEnforced(s) { StepKeepsRulesExactly(s, step); }
  }

  lemma StepKeepsRulesExactly(s: Sys, step: Step)
    requires AllEnforced(s)
    ensures AllEnforced(Apply(s, step))
       <==> KeepsRules(s, step)
  {
    var end := Apply(s, step);
    forall u | u in end.mem && !(TouchesEntry(step, u) || TouchesRule(step, u)) ensures Enforced(end, u) {
      assert Enforced(s, u);
    }
    match step
    case Insert(t, e) => assert t in end.mem && (Enforced(end, t) <==> Backed(s, t, e.expiry));
    case Replace(t, e) => assert t in end.mem && (Enforced(end, t) <==> Backed(s, t, e.expiry));
    case FwBlock(t, until, res) =>
      if t in s.mem {
        assert Enforced(s, t);
        assert Enforced(end, t) <==> (res.effect ==> Outlasts(until, s.mem[t].expiry));
      }
    case FwUnblock(t, res) =>
      if t in s.mem {
        assert Enforced(s, t);
        assert Enforced(end, t) <==> !res.effect;
      }
    case _ =>
  }

  // ---- the clean-up of the expiry loop ----

  /** The clean-up that the expiry loop makes for t, once it has left the maps, in whatever state
      it finds the agent by then: the blocked targets stay silenced exactly when neither t nor a
      second name of its network is in the map again; they keep their rows exactly when t is not,
      or the deletion fails; and their rules exactly when t is not, or no rule is removed. */
  lemma CleanupExact(cfg: Config, s: Sys, t: Target, io: Target -> ExpireIo)
    ensures var end := ApplyAll(s, CleanupSteps(cfg, [t], io));
            && end.mem == s.mem && end.nets == s.nets
            && (BlockedAreSilenced(s) ==> (BlockedAreSilenced(end) <==> forall u <- s.mem :: NetOf(u) != NetOf(t)))
            && (Stored(s) ==> (Stored(end) <==> t !in s.mem || !io(t).delete))
            && (AllEnforced(s) ==>
                  (AllEnforced(end) <==> t !in s.mem || !NeedsExplicitUnban(cfg.backend) || !io(t).unblock.effect))
  {
    var end := ApplyAll(s, CleanupSteps(cfg, [t], io));
    CleanupEffect(cfg, s, t, io);
    hide ApplyAll, CleanupSteps;
    if BlockedAreSilenced(s) && (exists u :: u in s.mem && NetOf(u) == NetOf(t)) {
      var u :| u in s.mem && NetOf(u) == NetOf(t);
      assert u in end.mem && NetOf(u) !in end.silenced;
    }
    if AllEnforced(s) && t in s.mem { assert Enforced(s, t) && t in end.mem; }
    forall u | AllEnforced(s) && u in s.mem && u != t ensures Enforced(end, u) { assert Enforced(s, u); }
  }

  lemma CleanupEffect(cfg: Config, s: Sys, t: Target, io: Target -> ExpireIo)
    ensures var gone := NeedsExplicitUnban(cfg.backend) && io(t).unblock.effect;
            ApplyAll(s, CleanupSteps(cfg, [t], io)) ==
            s.(rules := if gone then s.rules - {t} else s.rules,
               store := if io(t).delete then s.store - {t} else s.store,
               silenced := s.silenced - {NetOf(t)})
  {
    var tail := [DeleteBan(t, io(t).delete), Unsilence(t)];
    assert [t][..0] == [];
    if NeedsExplicitUnban(cfg.backend) {
      assert CleanupSteps(cfg, [t], io) == [FwUnblock(t, io(t).unblock), tail[0], tail[1]];
      Three(s, FwUnblock(t, io(t).unblock), tail[0], tail[1]);
    } else {
      assert CleanupSteps(cfg, [t], io) == tail;
      Two(s, tail[0], tail[1]);
    }
  }

  /** The guard fails when a target is blocked again behind the lock section of the expiry loop, at
      whatever point of the clean-up (its first j steps being made before): on every backend the
      new ban loses its silence, and what the remaining steps take: its row if the deletion is
      among them and works, its rule if the removal is. */
  lemma ReblockDuringExpiry(cfg: Config, s: Sys, t: Target, req: Request, clk: Clock, io: BlockIo,
                            clean: Target -> ExpireIo, j: nat)
    requires io.block.ok && j < |CleanupSteps(cfg, [t], clean)|
    ensures var cleanup := CleanupSteps(cfg, [t], clean);
            var end := ApplyAll(s, [Remove(t)] + cleanup[..j] + FreshSteps(cfg, t, req, clk, io) + cleanup[j..]);
            && t in end.mem && end.mem[t].expiry == BanExpiry(req.banSecs, clk.expiry)
            && NetOf(t) !in end.silenced
            && (clean(t).delete && DeleteBan(t, true) in cleanup[j..] ==> t !in end.store)
            && (clean(t).unblock.effect && FwUnblock(t, clean(t).unblock) in cleanup[j..] ==> t !in end.rules)
  {
    hide ApplyAll;
    var cleanup, again := CleanupSteps(cfg, [t], clean), FreshSteps(cfg, t, req, clk, io);
    CleanupForm(cfg, t, clean);
    var s1 := ApplyAll(s, [Remove(t)] + cleanup[..j]);
    FreshEffect(cfg, s1, t, req, clk, io);
    ApplyAllAppend(s, [Remove(t)] + cleanup[..j], again);
    ApplyAllAppend(s, [Remove(t)] + cleanup[..j] + again, cleanup[j..]);
    var all := [FwUnblock(t, clean(t).unblock), DeleteBan(t, clean(t).delete), Unsilence(t)];
    var i := if NeedsExplicitUnban(cfg.backend) then j else j + 1;
    assert cleanup[j..] == all[i..];
    TailEffect(ApplyAll(s1, again), t, i, clean(t));
  }

  lemma CleanupForm(cfg: Config, t: Target, io: Target -> ExpireIo)
    ensures var tail := [DeleteBan(t, io(t).delete), Unsilence(t)];
            CleanupSteps(cfg, [t], io) ==
            if NeedsExplicitUnban(cfg.backend) then [FwUnblock(t, io(t).unblock)] + tail else tail
  {
    assert [t][..0] == [];
  }

  /** Any tail of the clean-up. */
  lemma TailEffect(s: Sys, t: Target, i: nat, io: ExpireIo)
    requires i < 3
    ensures var all := [FwUnblock(t, io.unblock), DeleteBan(t, io.delete), Unsilence(t)];
            var end := ApplyAll(s, all[i..]);
            && end.mem == s.mem && NetOf(t) !in end.silenced
            && (io.delete && DeleteBan(t, true) in all[i..] ==> t !in end.store)
            && (io.unblock.effect && FwUnblock(t, io.unblock) in all[i..] ==> t !in end.rules)
  {
    var all := [FwUnblock(t, io.unblock), DeleteBan(t, io.delete), Unsilence(t)];
    if i == 0 {
      assert all[i..] == all;
      Three(s, all[0], all[1], all[2]);
    } else if i == 1 {
      assert all[i..] == [all[1], all[2]];
      Two(s, all[1], all[2]);
    } else {
      assert all[i..] == [all[2]];
      ApplyAllOne(s, all[2]);
    }
  }
}
