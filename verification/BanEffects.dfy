/** What the step lists of the enforcer's operations do to the five views. */
module BanEffects {
  import opened Ipv4
  import opened TargetText
  import opened Bans
  import opened Time

  lemma Two(s: Sys, a: Step, b: Step)
    ensures ApplyAll(s, [a, b]) == Apply(Apply(s, a), b)
  {
    assert [a, b][..1] == [a];
    ApplyAllOne(s, a);
  }

  lemma Three(s: Sys, a: Step, b: Step, c: Step)
    ensures ApplyAll(s, [a, b, c]) == Apply(Apply(Apply(s, a), b), c)
  {
    assert [a, b, c][..2] == [a, b];
    Two(s, a, b);
  }

  // ---- which steps touch what ----

  predicate TouchesEntry(step: Step, t: Target) {
    match step
    case Insert(u, _) => u == t
    case Replace(u, _) => u == t
    case Remove(u) => u == t
    case Reset => true
    case _ => false
  }

  predicate TouchesRow(step: Step, t: Target) {
    match step
    case SaveBan(u, _, _) => u == t
    case DeleteBan(u, _) => u == t
    case PruneBans(_, _) => true
    case _ => false
  }

  predicate TouchesRule(step: Step, t: Target) {
    match step
    case FwBlock(u, _, _) => u == t
    case FwUnblock(u, _) => u == t
    case _ => false
  }

  predicate Unsilences(step: Step, n: Net) {
    match step
    case Unsilence(u) => NetOf(u) == n
    case Reset => true
    case _ => false
  }

  lemma EntryKeptOnce(s: Sys, step: Step, t: Target)
    requires !TouchesEntry(step, t)
    ensures var end := Apply(s, step);
            && (t in end.mem <==> t in s.mem) && (t in s.mem ==> end.mem[t] == s.mem[t])
            && (t in end.nets <==> t in s.nets) && (t in s.nets ==> end.nets[t] == s.nets[t])
  {
  }

  lemma {:induction false} EntryKept(s: Sys, steps: seq<Step>, t: Target)
    requires forall step <- steps :: !TouchesEntry(step, t)
    ensures var end := ApplyAll(s, steps);
            && (t in end.mem <==> t in s.mem) && (t in s.mem ==> end.mem[t] == s.mem[t])
            && (t in end.nets <==> t in s.nets) && (t in s.nets ==> end.nets[t] == s.nets[t])
  {
    if steps != [] {
      EntryKept(s, steps[..|steps| - 1], t);
      hide Apply, TouchesEntry;
      EntryKeptOnce(ApplyAll(s, steps[..|steps| - 1]), steps[|steps| - 1], t);
    }
  }

  lemma RowKeptOnce(s: Sys, step: Step, t: Target)
    requires !TouchesRow(step, t)
    ensures var end := Apply(s, step);
            (t in end.store <==> t in s.store) && (t in s.store ==> end.store[t] == s.store[t])
  {
  }

  lemma {:induction false} RowKept(s: Sys, steps: seq<Step>, t: Target)
    requires forall step <- steps :: !TouchesRow(step, t)
    ensures var end := ApplyAll(s, steps);
            (t in end.store <==> t in s.store) && (t in s.store ==> end.store[t] == s.store[t])
  {
    if steps != [] {
      RowKept(s, steps[..|steps| - 1], t);
      hide Apply, TouchesRow;
      RowKeptOnce(ApplyAll(s, steps[..|steps| - 1]), steps[|steps| - 1], t);
    }
  }

  lemma {:induction false} RuleKept(s: Sys, steps: seq<Step>, t: Target)
    requires forall step <- steps :: !TouchesRule(step, t)
    ensures var end := ApplyAll(s, steps);
            (t in end.rules <==> t in s.rules) && (t in s.rules ==> end.rules[t] == s.rules[t])
  {
    if steps != [] {
      assert !TouchesRule(steps[|steps| - 1], t);
      RuleKept(s, steps[..|steps| - 1], t);
    }
  }

  lemma {:induction false} SilenceKept(s: Sys, steps: seq<Step>, n: Net)
    requires n in s.silenced
    requires forall step <- steps :: !Unsilences(step, n)
    ensures n in ApplyAll(s, steps).silenced
  {
    if steps != [] {
      assert !Unsilences(steps[|steps| - 1], n);
      SilenceKept(s, steps[..|steps| - 1], n);
    }
  }

  // ---- block ----

  function Saved(store: map<Target, Row>, t: Target, row: Row, ok: bool): map<Target, Row> {
    if ok then store[t := row] else store
  }

  /** A fresh block up to and including the firewall command. */
  function Tried(cfg: Config, s: Sys, t: Target, req: Request, clk: Clock, io: BlockIo): Sys {
    var expiry := BanExpiry(req.banSecs, clk.expiry);
    Sys(s.mem[t := Entry(expiry, req.moduleName)],
        if t.Cidr? then s.nets[t := NetOf(t)] else s.nets,
        Saved(s.store, t, Row(req.moduleName, UnixSeconds(expiry)), io.save),
        s.silenced,
        if io.block.effect then s.rules[t := RuleUntil(cfg.backend, req.banSecs, clk.apply)] else s.rules)
  }

  function TakenBack(s: Sys, t: Target, deleteOk: bool): Sys {
    s.(mem := s.mem - {t}, nets := s.nets - {t}, store := if deleteOk then s.store - {t} else s.store)
  }

  /** The whole effect of a fresh block. */
  lemma FreshEffect(cfg: Config, s: Sys, t: Target, req: Request, clk: Clock, io: BlockIo)
    ensures var mid := Tried(cfg, s, t, req, clk, io);
            ApplyAll(s, FreshSteps(cfg, t, req, clk, io)) ==
            if io.block.ok then mid.(silenced := s.silenced + {NetOf(t)}) else TakenBack(mid, t, io.delete)
  {
    hide ApplyAll;
    var expiry := BanExpiry(req.banSecs, clk.expiry);
    var head := [Insert(t, Entry(expiry, req.moduleName)),
                 SaveBan(t, Row(req.moduleName, UnixSeconds(expiry)), io.save),
                 FwBlock(t, RuleUntil(cfg.backend, req.banSecs, clk.apply), io.block)];
    var tail := if io.block.ok then [Silence(t)] else [Remove(t), DeleteBan(t, io.delete)];
    Three(s, head[0], head[1], head[2]);
    ApplyAllAppend(s, head, tail);
    FreshTail(Tried(cfg, s, t, req, clk, io), t, io);
  }

  lemma FreshTail(mid: Sys, t: Target, io: BlockIo)
    ensures ApplyAll(mid, if io.block.ok then [Silence(t)] else [Remove(t), DeleteBan(t, io.delete)])
         == if io.block.ok then mid.(silenced := mid.silenced + {NetOf(t)}) else TakenBack(mid, t, io.delete)
  {
    if io.block.ok {
      ApplyAllOne(mid, Silence(t));
    } else {
      Two(mid, Remove(t), DeleteBan(t, io.delete));
    }
  }

  /** An extension touches only the entry, the row and the rule of its own target. */
  lemma ExtendEffect(cfg: Config, s: Sys, t: Target, req: Request, clk: Clock, io: BlockIo, prev: Entry)
    ensures var end := ApplyAll(s, ExtendSteps(cfg, t, req, clk, io, prev));
            var saved := Saved(s.store, t, Row(req.moduleName, UnixSeconds(BanExpiry(req.banSecs, clk.save))), io.save);
            var asked := Entry(BanExpiry(req.banSecs, clk.expiry), req.moduleName);
            && end.nets == s.nets && end.silenced == s.silenced
            && end.mem == s.mem[t := if ExtensionOk(cfg, io) then asked else prev]
            && end.store == (if ExtensionOk(cfg, io) then saved
                             else Saved(saved, t, Row(prev.moduleName, UnixSeconds(prev.expiry)), io.restore))
            && end.rules == ApplyAll(s, ExtendRuleSteps(cfg, t, req, clk, io, prev)).rules
  {
    hide ApplyAll;
    var head := [Replace(t, Entry(BanExpiry(req.banSecs, clk.expiry), req.moduleName)),
                 SaveBan(t, Row(req.moduleName, UnixSeconds(BanExpiry(req.banSecs, clk.save))), io.save)];
    var rule := ExtendRuleSteps(cfg, t, req, clk, io, prev);
    var s1 := ApplyAll(s, head);
    Two(s, head[0], head[1]);
    ApplyAllAppend(s, head, rule);
    RuleStepsOnlyRules(s1, rule);
    RuleStepsSameRules(s, s1, rule);
    if ExtensionOk(cfg, io) {
      assert head + rule + [] == head + rule;
    } else {
      var restore := RestoreSteps(t, prev, io);
      ApplyAllAppend(s, head + rule, restore);
      Two(ApplyAll(s, head + rule), restore[0], restore[1]);
      assert s1.mem[t := prev] == s.mem[t := prev];
    }
  }

  ghost predicate RuleStep(step: Step) { step.FwBlock? || step.FwUnblock? }

  lemma {:induction false} RuleStepsOnlyRules(s: Sys, steps: seq<Step>)
    requires forall step <- steps :: RuleStep(step)
    ensures ApplyAll(s, steps) == s.(rules := ApplyAll(s, steps).rules)
  {
    if steps != [] {
      assert RuleStep(steps[|steps| - 1]);
      RuleStepsOnlyRules(s, steps[..|steps| - 1]);
    }
  }

  lemma {:induction false} RuleStepsSameRules(s: Sys, s1: Sys, steps: seq<Step>)
    requires s.rules == s1.rules && forall step <- steps :: RuleStep(step)
    ensures ApplyAll(s, steps).rules
         == ApplyAll(s1, steps).rules
  {
    if steps != [] {
      assert RuleStep(steps[|steps| - 1]);
      RuleStepsSameRules(s, s1, steps[..|steps| - 1]);
    }
  }

  // ---- expire ----

  lemma {:induction false} CleanupTargets(cfg: Config, ts: seq<Target>, io: Target -> ExpireIo)
    ensures forall step <- CleanupSteps(cfg, ts, io) ::
              && (step.FwUnblock? || step.DeleteBan? || step.Unsilence?)
              && (step.FwUnblock? ==> step.t in ts)
              && (step.DeleteBan? ==> step.t in ts)
              && (step.Unsilence? ==> step.t in ts)
  {
    if ts != [] {
      var last := |ts| - 1;
      CleanupTargets(cfg, ts[..last], io);
      assert forall u :: u in ts[..last] ==> u in ts;
      assert ts[last] in ts;
    }
  }

  lemma RemoveNext(s: Sys, steps: seq<Step>)
    requires steps != []
    ensures ApplyAll(s, steps) == Apply(ApplyAll(s, steps[..|steps| - 1]), steps[|steps| - 1])
  {
    hide Apply;
  }

  lemma {:induction false} RemoveEffect(s: Sys, ts: seq<Target>)
    ensures var end := ApplyAll(s, RemoveSteps(ts));
            end == s.(mem := s.mem - (set t | t in ts), nets := s.nets - (set t | t in ts))
  {
    if ts != [] {
      var last := |ts| - 1;
      RemoveEffect(s, ts[..last]);
      assert RemoveSteps(ts)[..last] == RemoveSteps(ts[..last]);
      hide ApplyAll;
      var init, all := set t | t in ts[..last], set t | t in ts;
      assert all == init + {ts[last]} by { assert ts == ts[..last] + [ts[last]]; }
      assert s.mem - all == s.mem - init - {ts[last]} && s.nets - all == s.nets - init - {ts[last]};
      RemoveNext(s, RemoveSteps(ts));
    }
  }

  /** The two maps lose exactly the expired entries. */
  lemma ExpireMaps(cfg: Config, s: Sys, order: seq<Target>, now: Nanos, io: Target -> ExpireIo)
    requires Enumerates(order, s.mem.Keys)
    ensures var end := ApplyAll(s, ExpireSteps(cfg, s, order, now, io));
            var gone := set t | t in s.mem && now > s.mem[t].expiry;
            end.mem == s.mem - gone && end.nets == s.nets - gone
  {
    var ts := Expired(s.mem, order, now);
    var gone := set t | t in s.mem && now > s.mem[t].expiry;
    ExpiredExact(s.mem, order, now);
    RemoveEffect(s, ts);
    assert (set t | t in ts) == gone;
    CleanupTargets(cfg, ts, io);
    ApplyAllAppend(s, RemoveSteps(ts), CleanupSteps(cfg, ts, io));
    MapsUntouched(ApplyAll(s, RemoveSteps(ts)), CleanupSteps(cfg, ts, io));
  }

  lemma {:induction false} MapsUntouched(s: Sys, steps: seq<Step>)
    requires forall step <- steps :: !(step.Insert? || step.Replace? || step.Remove? || step.Reset?)
    ensures ApplyAll(s, steps).mem == s.mem && ApplyAll(s, steps).nets == s.nets
  {
    if steps != [] {
      var step := steps[|steps| - 1];
      assert !(step.Insert? || step.Replace? || step.Remove? || step.Reset?);
      MapsUntouched(s, steps[..|steps| - 1]);
    }
  }

  // ---- reconcile ----

  /** The ban is re-applied by this pass. */
  ghost predicate Restored(s: Sys, t: Target, io: ReconcileIo) {
    Missing(s, t, io) && io.block(t).effect
  }

  function RestoredRule(cfg: Config, s: Sys, t: Target, io: ReconcileIo): Option<Nanos>
    requires t in s.mem
  {
    RuleUntil(cfg.backend, RemainingSecs(s.mem[t].expiry, io.now), io.at(t))
  }

  /** The rules after a pass over `keys`, whatever the iteration order. */
  ghost predicate Reconciled(cfg: Config, s: Sys, keys: set<Target>, io: ReconcileIo,
                             rules: map<Target, Option<Nanos>>) {
    && (forall t :: t in rules <==> t in s.rules || (t in keys && Restored(s, t, io)))
    && (forall t <- rules ::
          rules[t] == if t in keys && Restored(s, t, io) then RestoredRule(cfg, s, t, io) else s.rules[t])
  }

  lemma {:induction false} ReapplyEffect(cfg: Config, s: Sys, order: seq<Target>, io: ReconcileIo)
    ensures Reconciled(cfg, s, Keys(order), io, ApplyAll(s, ReapplySteps(cfg, s, order, io)).rules)
  {
    hide ApplyAll, Reconciled;
    if order == [] {
      ReapplyNone(cfg, s, io);
    } else {
      var last := |order| - 1;
      var t := order[last];
      var init := ReapplySteps(cfg, s, order[..last], io);
      ReapplyEffect(cfg, s, order[..last], io);
      KeysSnoc(order);
      ReapplyOne(cfg, s, Keys(order[..last]), t, io, ApplyAll(s, init));
      ApplyAllAppend(s, init, ReapplyStep(cfg, s, t, io));
      assert ReapplySteps(cfg, s, order, io) == init + ReapplyStep(cfg, s, t, io);
    }
  }

  lemma ReapplyNone(cfg: Config, s: Sys, io: ReconcileIo)
    ensures Reconciled(cfg, s, Keys([]), io, ApplyAll(s, []).rules)
  {
  }

  lemma ReapplyOne(cfg: Config, s: Sys, keys: set<Target>, t: Target, io: ReconcileIo, mid: Sys)
    requires Reconciled(cfg, s, keys, io, mid.rules)
    ensures Reconciled(cfg, s, keys + {t}, io, ApplyAll(mid, ReapplyStep(cfg, s, t, io)).rules)
  {
    hide ApplyAll, Missing, RuleUntil, RemainingSecs;
    if ReapplyStep(cfg, s, t, io) == [] {
      NothingReapplied(cfg, s, t, io, mid);
    } else {
      ReappliedStep(cfg, s, t, io);
      ApplyAllOne(mid, FwBlock(t, RestoredRule(cfg, s, t, io), io.block(t)));
    }
  }

  lemma NothingReapplied(cfg: Config, s: Sys, t: Target, io: ReconcileIo, mid: Sys)
    requires ReapplyStep(cfg, s, t, io) == []
    ensures !Missing(s, t, io) && ApplyAll(mid, []) == mid
  {
  }

  lemma ReappliedStep(cfg: Config, s: Sys, t: Target, io: ReconcileIo)
    requires ReapplyStep(cfg, s, t, io) != []
    ensures t in s.mem && Missing(s, t, io)
    ensures ReapplyStep(cfg, s, t, io)
         == [FwBlock(t, RestoredRule(cfg, s, t, io), io.block(t))]
  {
  }

  ghost function Keys(order: seq<Target>): set<Target> { set t | t in order }

  lemma KeysSnoc(order: seq<Target>)
    requires order != []
    ensures Keys(order) == Keys(order[..|order| - 1]) + {order[|order| - 1]}
  {
  }

  lemma {:induction false} ReapplyOnlyBlocks(cfg: Config, s: Sys, order: seq<Target>, io: ReconcileIo)
    ensures forall step <- ReapplySteps(cfg, s, order, io) :: step.FwBlock?
  {
    if order != [] { ReapplyOnlyBlocks(cfg, s, order[..|order| - 1], io); }
  }

  /** Only the firewall changes, by the missing bans, in any iteration order. */
  lemma ReconcileEffect(cfg: Config, s: Sys, order: seq<Target>, io: ReconcileIo)
    requires Enumerates(order, s.mem.Keys)
    ensures var end := ApplyAll(s, ReconcileSteps(cfg, s, order, io));
            && end == s.(rules := end.rules)
            && (if io.setupOk && io.listOk then Reconciled(cfg, s, s.mem.Keys, io, end.rules) else end == s)
  {
    ReapplyEffect(cfg, s, order, io);
    ReapplyOnlyBlocks(cfg, s, order, io);
    assert Keys(order) == s.mem.Keys;
    RuleStepsOnlyRules(s, ReconcileSteps(cfg, s, order, io));
  }

  // ---- restart ----

  /** Memory holds the given rows, indexed and silenced. */
  ghost predicate Loaded(rows: map<Target, Row>, keys: set<Target>, s: Sys)
    requires keys <= rows.Keys
  {
    && s.mem.Keys == keys
    && (forall t <- keys :: s.mem[t] == Entry(rows[t].expiresAt * SECOND, rows[t].moduleName))
    && (forall t :: t in s.nets <==> t in keys && t.Cidr?)
    && (forall t <- s.nets :: s.nets[t] == NetOf(t))
    && (forall t <- keys :: NetOf(t) in s.silenced)
  }

  lemma {:induction false} LoadEffect(s: Sys, rows: map<Target, Row>, order: seq<Target>)
    requires s.mem == map[] && s.nets == map[] && Keys(order) <= rows.Keys
    ensures var end := ApplyAll(s, LoadSteps(s, rows, order));
            Loaded(rows, Keys(order), end) && end.store == s.store && end.rules == s.rules
  {
    if order != [] {
      hide ApplyAll, Loaded;
      var last := |order| - 1;
      var t := order[last];
      var init := LoadSteps(s, rows, order[..last]);
      KeysSnoc(order);
      assert t in Keys(order);
      LoadEffect(s, rows, order[..last]);
      LoadOne(ApplyAll(s, init), rows, Keys(order[..last]), t);
      ApplyAllAppend(s, init, [Insert(t, Entry(rows[t].expiresAt * SECOND, rows[t].moduleName)), Silence(t)]);
    }
  }

  lemma LoadOne(s: Sys, rows: map<Target, Row>, keys: set<Target>, t: Target)
    requires keys <= rows.Keys && t in rows && Loaded(rows, keys, s)
    ensures var end := ApplyAll(s, [Insert(t, Entry(rows[t].expiresAt * SECOND, rows[t].moduleName)), Silence(t)]);
            Loaded(rows, keys + {t}, end) && end.store == s.store && end.rules == s.rules
  {
    Two(s, Insert(t, Entry(rows[t].expiresAt * SECOND, rows[t].moduleName)), Silence(t));
  }

  /** Memory holds the same entry for every key, indexed and silenced. */
  ghost predicate Adopted(keys: set<Target>, e: Entry, s: Sys) {
    && s.mem.Keys == keys && (forall t <- keys :: s.mem[t] == e)
    && (forall t :: t in s.nets <==> t in keys && t.Cidr?)
    && (forall t <- s.nets :: s.nets[t] == NetOf(t))
    && (forall t <- keys :: NetOf(t) in s.silenced)
  }

  lemma {:induction false} ImportLoads(s: Sys, present: seq<Target>, e: Entry)
    requires s.mem == map[] && s.nets == map[]
    ensures var end := ApplyAll(s, ImportSteps(s, present, e));
            Adopted(Keys(present), e, end) && end.store == s.store && end.rules == s.rules
  {
    if present != [] {
      hide ApplyAll, Adopted, ImportSteps;
      var n := |present| - 1;
      var t, init := present[n], ImportSteps(s, present[..n], e);
      KeysSnoc(present);
      ImportLoads(s, present[..n], e);
      ImportNext(s, present, n, e);
      assert present[..n + 1] == present;
      ApplyAllAppend(s, init, [Insert(t, e), Silence(t)]);
      AdoptOne(ApplyAll(s, init), Keys(present[..n]), t, e);
      assert t in present[..n] ==> Keys(present) == Keys(present[..n]);
    }
  }

  lemma AdoptOne(s: Sys, keys: set<Target>, t: Target, e: Entry)
    requires Adopted(keys, e, s)
    ensures var end := ApplyAll(s, [Insert(t, e), Silence(t)]);
            Adopted(keys + {t}, e, end) && end.store == s.store && end.rules == s.rules
  {
    Two(s, Insert(t, e), Silence(t));
    hide ApplyAll, NetOf;
  }

  /** After a restart memory holds exactly the active rows, and the firewall was reconciled. */
  lemma RestartEffect(cfg: Config, s: Sys, rowOrder: seq<Target>, now: Nanos, order: seq<Target>, io: ReconcileIo)
    returns (up: Sys)
    requires Enumerates(rowOrder, ActiveRows(s.store, now).Keys) && Enumerates(order, ActiveRows(s.store, now).Keys)
    ensures var end := ApplyAll(s, RestartSteps(cfg, s, rowOrder, now, order, io));
            && Loaded(ActiveRows(s.store, now), ActiveRows(s.store, now).Keys, up)
            && up.store == s.store && up.rules == s.rules && end == up.(rules := end.rules)
            && (if io.setupOk && io.listOk then Reconciled(cfg, up, up.mem.Keys, io, end.rules) else end == up)
  {
    var empty := Apply(s, Reset);
    var rows := ActiveRows(s.store, now);
    var load := LoadSteps(empty, rows, rowOrder);
    LoadEffect(empty, rows, rowOrder);
    assert Keys(rowOrder) == rows.Keys;
    up := ApplyAll(empty, load);
    var recon := ReconcileSteps(cfg, up, order, io);
    ApplyAllOne(s, Reset);
    ApplyAllAppend(s, [Reset], load);
    ApplyAllAppend(s, [Reset] + load, recon);
    ReconcileEffect(cfg, up, order, io);
  }
}
