/** The index of networks: what IsBlocked answers, and what survives interleaved lock sections. */
module BanIndex {
  import opened Ipv4
  import opened Bans
  import opened BanEffects
  import opened BanSafety
  import opened Time

  // ---- what IsBlocked answers ----

  /** With the index in agreement, an address is reported blocked exactly when some entry
      that has not expired covers it. */
  lemma BlockedExactlyWhenCovered(s: Sys, ip: Addr, now: Nanos)
    requires IndexAgrees(s)
    ensures (exists k :: BlockedBy(s, Host(ip), now, k))
       <==> (exists t :: LiveIn(s.mem, t, now) && Covers(t, ip))
  {
    forall t ensures BlockedBy(s, Host(ip), now, t) <==> LiveIn(s.mem, t, now) && Covers(t, ip) {
      NormalizeSound(t);
    }
    if exists t :: LiveIn(s.mem, t, now) && Covers(t, ip) {
      var t :| LiveIn(s.mem, t, now) && Covers(t, ip);
      assert BlockedBy(s, Host(ip), now, t);
    }
  }

  /** Over every run, with every target, crashes, and starts with or without a readable store. */
  lemma BlockedExactlyOverRuns(cfg: Config, w: World, events: seq<Event>, ip: Addr, now: Nanos)
    requires Inv(w.s, w.promises, w.now) && PossibleRun(cfg, w, events)
    ensures var s := Run(cfg, w, events).s;
            (exists k :: BlockedBy(s, Host(ip), now, k)) <==> (exists t :: LiveIn(s.mem, t, now) && Covers(t, ip))
  {
    RunsAreSafe(cfg, w, events);
    BlockedExactlyWhenCovered(Run(cfg, w, events).s, ip, now);
  }

  // ---- lock sections in any interleaving ----

  /** A network entry of the index is always one of the map. */
  ghost predicate IndexIncluded(s: Sys) {
    s.nets.Keys <= s.mem.Keys && forall t <- s.nets :: t.Cidr? && s.nets[t] == NetOf(t)
  }

  /** Whatever sections of whatever operations are interleaved, in any order, the index
      never names a network that is not blocked. */
  lemma {:induction false} InclusionSurvivesInterleaving(s: Sys, steps: seq<Step>)
    requires IndexIncluded(s)
    ensures IndexIncluded(ApplyAll(s, steps))
  {
    hide Apply, IndexIncluded;
    if steps != [] {
      InclusionSurvivesInterleaving(s, steps[..|steps| - 1]);
      InclusionKept(ApplyAll(s, steps[..|steps| - 1]), steps[|steps| - 1]);
    }
  }

  lemma InclusionKept(s: Sys, step: Step)
    requires IndexIncluded(s)
    ensures IndexIncluded(Apply(s, step))
  {
    hide NetOf;
  }

  /** Full agreement is lost by one kind of section only: writing the entry of a network
      that is no longer in the map, as the rollback of an extension may. */
  lemma AgreementLostExactlyBy(s: Sys, step: Step)
    requires IndexAgrees(s)
    ensures IndexAgrees(Apply(s, step))
       <==> !(step.Replace? && step.t.Cidr? && step.t !in s.mem)
  {
    if step.Replace? && step.t.Cidr? && step.t !in s.mem {
      assert step.t in Apply(s, step).mem && step.t !in Apply(s, step).nets;
    }
  }

  /** That happens when the operator unblocks a network while its extension is failing: the
      rolled-back entry is live, but no address of the network is reported blocked by it. */
  lemma RollbackAfterUnblock(s: Sys, t: Target, longer: Entry, prev: Entry, now: Nanos, ip: Addr)
    requires IndexAgrees(s) && t.Cidr? && LiveIn(s.mem, t, now) && s.mem[t] == prev && Covers(t, ip)
    ensures var end := ApplyAll(s, [Replace(t, longer), Remove(t), Replace(t, prev)]);
            LiveIn(end.mem, t, now) && !IndexAgrees(end) && !BlockedBy(end, Host(ip), now, t)
  {
    Three(s, Replace(t, longer), Remove(t), Replace(t, prev));
  }
}
