/** The enforcer and the collaborators it steps: bans table, firewall, silence set. The
    outcome of every external call and every clock reading is a parameter; the order in
    which a map is iterated is one too. The ghost log records each step as it is made. */
module Enforcers {
  import opened Ipv4
  import opened TargetText
  import opened Countries
  import opened Bans
  import BanEffects
  import Whitelists
  import opened Time

  class BanTable {
    var rows: map<Target, Row>

    constructor ()
      ensures rows == map[]
    {
      rows := map[];
    }

    method SaveBan(t: Target, row: Row, ok: bool) returns (err: bool)
      modifies this
      ensures err == !ok && rows == if ok then old(rows)[t := row] else old(rows)
    {
      if ok { rows := rows[t := row]; }
      err := !ok;
    }

    method DeleteBan(t: Target, ok: bool) returns (err: bool)
      modifies this
      ensures err == !ok && rows == if ok then old(rows) - {t} else old(rows)
    {
      if ok { rows := rows - {t}; }
      err := !ok;
    }

    /** Returns the number of rows deleted. */
    method PruneExpiredBans(now: Nanos, ok: bool) returns (deleted: nat, err: bool)
      modifies this
      ensures err == !ok && rows == if ok then ActiveRows(old(rows), now) else old(rows)
      ensures deleted == |old(rows).Keys - rows.Keys|
    {
      deleted := 0;
      if ok {
        deleted := |rows.Keys - ActiveRows(rows, now).Keys|;
        rows := ActiveRows(rows, now);
      }
      err := !ok;
    }
  }

  class Firewall {
    const backend: Backend
    var rules: map<Target, Option<Nanos>>

    constructor (backend: Backend)
      ensures this.backend == backend && rules == map[]
    {
      this.backend := backend;
      rules := map[];
    }

    method Block(t: Target, banSecs: int, at: Nanos, res: CmdResult) returns (ok: bool)
      modifies this
      ensures ok == res.ok
      ensures rules == if res.effect then old(rules)[t := RuleUntil(backend, banSecs, at)] else old(rules)
    {
      if res.effect { rules := rules[t := RuleUntil(backend, banSecs, at)]; }
      ok := res.ok;
    }

    method Unblock(t: Target, res: CmdResult) returns (ok: bool)
      modifies this
      ensures ok == res.ok && rules == if res.effect then old(rules) - {t} else old(rules)
    {
      if res.effect { rules := rules - {t}; }
      ok := res.ok;
    }

    method ListBlocked(at: Nanos) returns (present: seq<Target>)
      ensures forall k :: k in present <==> RuleActive(rules, k, at)
    {
      present := [];
      var rest := rules.Keys;
      while rest != {}
        invariant rest <= rules.Keys
        invariant forall k :: k in present <==> k in rules.Keys - rest && RuleActive(rules, k, at)
      {
        var k :| k in rest;
        if RuleActive(rules, k, at) { present := present + [k]; }
        rest := rest - {k};
      }
    }
  }

  /** What GetBlockedIP reports: the blocking key, with its expiry and module. */
  datatype BlockedInfo = BlockedInfo(key: Target, entry: Entry)

  /** A point in a run: the state, and the steps made so far. */
  datatype Mark = Mark(sys: Sys, log: seq<Step>)

  class Enforcer {
    const cfg: Config
    const store: BanTable
    const fw: Firewall
    const whitelist: Whitelists.Whitelist
    var blockedIPs: map<Target, Entry>
    var blockedNets: map<Target, Net>
    var suspendedAccts: map<string, string>
    var blocksTotal: nat
    var suspsTotal: nat
    ghost var log: seq<Step>

    ghost predicate Valid()
      reads whitelist
    {
      fw.backend == cfg.backend && whitelist.Valid()
    }

    ghost function View(): Sys
      reads this, store, fw, whitelist
    {
      Sys(blockedIPs, blockedNets, store.rows, whitelist.silenced, fw.rules)
    }

    constructor (cfg: Config, store: BanTable, fw: Firewall, whitelist: Whitelists.Whitelist)
      requires fw.backend == cfg.backend && whitelist.Valid()
      ensures Valid() && this.store == store && this.fw == fw && this.whitelist == whitelist && this.cfg == cfg
      ensures View() == Sys(map[], map[], store.rows, whitelist.silenced, fw.rules)
    {
      this.cfg, this.store, this.fw, this.whitelist := cfg, store, fw, whitelist;
      blockedIPs, blockedNets, suspendedAccts, blocksTotal, suspsTotal := map[], map[], map[], 0, 0;
      log := [];
    }

    ghost function Here(): Mark
      reads this, store, fw, whitelist
    {
      Mark(View(), log)
    }

    /** Where an operation stands that began at `from` and has made the steps `done`. */
    ghost predicate Follows(from: Mark, done: seq<Step>)
      reads this, store, fw, whitelist
    {
      Valid() && View() == ApplyAll(from.sys, done) && log == from.log + done
    }

    lemma NoSteps(from: Mark)
      ensures ApplyAll(from.sys, []) == from.sys && from.log + [] == from.log
    {
    }

    lemma Extended(from: Mark, done: seq<Step>, before: Sys, step: Step)
      requires before == ApplyAll(from.sys, done)
      ensures Apply(before, step) == ApplyAll(from.sys, done + [step])
      ensures from.log + done + [step] == from.log + (done + [step])
    {
      assert (done + [step])[..|done|] == done;
    }

    // ---- one step each: lock sections and calls to the collaborators ----

    /** A new entry, in both maps. */
    method InsertEntry(t: Target, e: Entry, ghost from: Mark, ghost done: seq<Step>) returns (ghost next: seq<Step>)
      requires Follows(from, done)
      modifies this`blockedIPs, this`blockedNets, this`log
      ensures next == done + [Insert(t, e)] && Follows(from, next)
      ensures blockedIPs == old(blockedIPs)[t := e]
    {
      Extended(from, done, View(), Insert(t, e));
      blockedIPs := blockedIPs[t := e];
      if t.Cidr? { blockedNets := blockedNets[t := NetOf(t)]; }
      next := done + [Insert(t, e)];
      log := log + [Insert(t, e)];
    }

    method ReplaceEntry(t: Target, e: Entry, ghost from: Mark, ghost done: seq<Step>) returns (ghost next: seq<Step>)
      requires Follows(from, done)
      modifies this`blockedIPs, this`log
      ensures next == done + [Replace(t, e)] && Follows(from, next)
    {
      Extended(from, done, View(), Replace(t, e));
      blockedIPs := blockedIPs[t := e];
      next := done + [Replace(t, e)];
      log := log + [Replace(t, e)];
    }

    method RemoveEntry(t: Target, ghost from: Mark, ghost done: seq<Step>) returns (ghost next: seq<Step>)
      requires Follows(from, done)
      modifies this`blockedIPs, this`blockedNets, this`log
      ensures next == done + [Remove(t)] && Follows(from, next)
      ensures blockedIPs == old(blockedIPs) - {t}
    {
      Extended(from, done, View(), Remove(t));
      blockedIPs := blockedIPs - {t};
      blockedNets := blockedNets - {t};
      next := done + [Remove(t)];
      log := log + [Remove(t)];
    }

    method Save(t: Target, e: Entry, ok: bool, ghost from: Mark, ghost done: seq<Step>)
      returns (err: bool, ghost next: seq<Step>)
      requires Follows(from, done)
      modifies this`log, store
      ensures var step := SaveBan(t, Row(e.moduleName, UnixSeconds(e.expiry)), ok);
              next == done + [step]
      ensures err == !ok && Follows(from, next)
    {
      var row := Row(e.moduleName, UnixSeconds(e.expiry));
      Extended(from, done, View(), SaveBan(t, row, ok));
      err := store.SaveBan(t, row, ok);
      next := done + [SaveBan(t, row, ok)];
      log := log + [SaveBan(t, row, ok)];
    }

    method Delete(t: Target, ok: bool, ghost from: Mark, ghost done: seq<Step>)
      returns (err: bool, ghost next: seq<Step>)
      requires Follows(from, done)
      modifies this`log, store
      ensures next == done + [DeleteBan(t, ok)]
      ensures err == !ok && Follows(from, next)
    {
      Extended(from, done, View(), DeleteBan(t, ok));
      err := store.DeleteBan(t, ok);
      next := done + [DeleteBan(t, ok)];
      log := log + [DeleteBan(t, ok)];
    }

    method AddRule(t: Target, banSecs: int, at: Nanos, res: CmdResult, ghost from: Mark, ghost done: seq<Step>)
      returns (ok: bool, ghost next: seq<Step>)
      requires Follows(from, done)
      modifies this`log, fw
      ensures var step := FwBlock(t, RuleUntil(cfg.backend, banSecs, at), res);
              next == done + [step]
      ensures ok == res.ok && Follows(from, next)
    {
      ghost var step := FwBlock(t, RuleUntil(cfg.backend, banSecs, at), res);
      Extended(from, done, View(), step);
      ok := fw.Block(t, banSecs, at, res);
      next := done + [step];
      log := log + [step];
    }

    method RemoveRule(t: Target, res: CmdResult, ghost from: Mark, ghost done: seq<Step>)
      returns (ok: bool, ghost next: seq<Step>)
      requires Follows(from, done)
      modifies this`log, fw
      ensures next == done + [FwUnblock(t, res)]
      ensures ok == res.ok && Follows(from, next)
    {
      Extended(from, done, View(), FwUnblock(t, res));
      ok := fw.Unblock(t, res);
      next := done + [FwUnblock(t, res)];
      log := log + [FwUnblock(t, res)];
    }

    method SilenceTarget(t: Target, ghost from: Mark, ghost done: seq<Step>) returns (ghost next: seq<Step>)
      requires Follows(from, done)
      modifies this`log, whitelist
      ensures next == done + [Silence(t)] && Follows(from, next)
    {
      Extended(from, done, View(), Silence(t));
      whitelist.DoSilence(Some(t));
      next := done + [Silence(t)];
      log := log + [Silence(t)];
    }

    method UnsilenceTarget(t: Target, ghost from: Mark, ghost done: seq<Step>) returns (ghost next: seq<Step>)
      requires Follows(from, done)
      modifies this`log, whitelist
      ensures next == done + [Unsilence(t)] && Follows(from, next)
    {
      Extended(from, done, View(), Unsilence(t));
      whitelist.DoUnsilence(Some(t));
      next := done + [Unsilence(t)];
      log := log + [Unsilence(t)];
    }

    // ---- the operations ----

    method BlockIpWithTtl(ip: string, moduleName: string, banSecs: int, clk: Clock, io: BlockIo)
      returns (outcome: Outcome)
      requires Valid()
      modifies this`blockedIPs, this`blockedNets, this`blocksTotal, this`log, store, fw, whitelist
      ensures var req := Request(ParseTarget(ip), moduleName, banSecs);
              var steps := BlockSteps(cfg, old(View()), req, clk, io);
              && outcome == BlockOutcome(cfg, old(View()), req, clk, io)
              && Follows(old(Here()), steps)
      ensures var req := Request(ParseTarget(ip), moduleName, banSecs);
              var isNew := Decide(cfg, old(View()), req, clk).Fresh?;
              blocksTotal == old(blocksTotal) + (if isNew && outcome == Applied then 1 else 0)
    {
      hide ApplyAll, IsPrivateIp, VetoedByCountry, ParseTarget, Normalize, FormatAddr, FreshSteps, ExtendSteps;
      ghost var from := Here();
      NoSteps(from);
      var req := Request(ParseTarget(ip), moduleName, banSecs);
      var parsed := req.target;
      if parsed.None? { return Failed; }
      var t := Normalize(parsed.value);
      if IsPrivateIp(t.addr) { return Skipped; }
      if moduleName != "manual" && VetoedByCountry(cfg.allowedCountries, cfg.geo, FormatAddr(t.addr)) {
        return Skipped;
      }
      var expiry := BanExpiry(banSecs, clk.expiry);
      if t in blockedIPs && clk.check < blockedIPs[t].expiry {
        var prev := blockedIPs[t];
        if !(expiry > prev.expiry + MINUTE) { return Already; }
        assert Decide(cfg, from.sys, req, clk) == Extend(prev);
        var err := ExtendBan(t, req, clk, io, prev);
        outcome := if err then Failed else Applied;
      } else {
        assert Decide(cfg, from.sys, req, clk) == Fresh;
        outcome := BlockFresh(t, req, clk, io);
      }
    }

    /** The rest of blockIPWithTTL for a target that is not blocked: write ahead to the store,
        then the firewall, then the silence set; taken back if the firewall fails. */
    method BlockFresh(t: Target, req: Request, clk: Clock, io: BlockIo) returns (outcome: Outcome)
      requires Valid()
      modifies this`blockedIPs, this`blockedNets, this`blocksTotal, this`log, store, fw, whitelist
      ensures outcome == if io.block.ok then Applied else Failed
      ensures var steps := FreshSteps(cfg, t, req, clk, io);
              Follows(old(Here()), steps)
      ensures blocksTotal == old(blocksTotal) + (if outcome == Applied then 1 else 0)
    {
      hide ApplyAll, BanExpiry, UnixSeconds, RuleUntil;
      ghost var from := Here();
      NoSteps(from);
      var e := Entry(BanExpiry(req.banSecs, clk.expiry), req.moduleName);
      var saveErr, ok;
      ghost var done := InsertEntry(t, e, from, []);
      saveErr, done := Save(t, e, io.save, from, done);
      ok, done := AddRule(t, req.banSecs, clk.apply, io.block, from, done);
      ghost var tried := done;
      if ok {
        blocksTotal := blocksTotal + 1;
        done := SilenceTarget(t, from, done);
        outcome := Applied;
      } else {
        done := TakeBack(t, io.delete, from, done);
        outcome := Failed;
      }
      assert tried == FreshSteps(cfg, t, req, clk, io)[..3];
      assert done == FreshSteps(cfg, t, req, clk, io);
    }

    method TakeBack(t: Target, deleteOk: bool, ghost from: Mark, ghost done0: seq<Step>) returns (ghost done: seq<Step>)
      requires Follows(from, done0)
      modifies this`blockedIPs, this`blockedNets, this`log, store
      ensures done == done0 + [Remove(t), DeleteBan(t, deleteOk)] && Follows(from, done)
    {
      hide ApplyAll;
      var deleteErr;
      done := RemoveEntry(t, from, done0);
      deleteErr, done := Delete(t, deleteOk, from, done);
    }

    /** extendBan, with the lock section before it: persists the new expiry, re-applies the
        rule, and restores the earlier ban if the firewall fails. */
    method ExtendBan(t: Target, req: Request, clk: Clock, io: BlockIo, prev: Entry) returns (err: bool)
      requires Valid()
      modifies this`blockedIPs, this`log, store, fw
      ensures err == !ExtensionOk(cfg, io)
      ensures var steps := ExtendSteps(cfg, t, req, clk, io, prev);
              Follows(old(Here()), steps)
    {
      hide ApplyAll;
      ghost var from := Here();
      NoSteps(from);
      ghost var head := [Replace(t, Entry(BanExpiry(req.banSecs, clk.expiry), req.moduleName)),
                         SaveBan(t, Row(req.moduleName, UnixSeconds(BanExpiry(req.banSecs, clk.save))), io.save)];
      ghost var done := ReplaceEntry(t, Entry(BanExpiry(req.banSecs, clk.expiry), req.moduleName), from, []);
      var saveErr, ok;
      saveErr, done := Save(t, Entry(BanExpiry(req.banSecs, clk.save), req.moduleName), io.save, from, done);
      assert done == head;
      ghost var rule;
      ok, done, rule := ExtendRule(t, req, clk, io, prev, from, done);
      if !ok {
        done := RestoreBan(t, prev, io, from, done);
      }
      assert done == ExtendSteps(cfg, t, req, clk, io, prev);
      err := !ok;
    }

    method RestoreBan(t: Target, prev: Entry, io: BlockIo, ghost from: Mark, ghost done0: seq<Step>)
      returns (ghost done: seq<Step>)
      requires Follows(from, done0)
      modifies this`blockedIPs, this`log, store
      ensures var steps := RestoreSteps(t, prev, io);
              done == done0 + steps && Follows(from, done)
    {
      hide ApplyAll;
      done := ReplaceEntry(t, prev, from, done0);
      var restoreErr;
      restoreErr, done := Save(t, prev, io.restore, from, done);
    }

    method ExtendRule(t: Target, req: Request, clk: Clock, io: BlockIo, prev: Entry,
                      ghost from: Mark, ghost done0: seq<Step>)
      returns (ok: bool, ghost done: seq<Step>, ghost steps: seq<Step>)
      requires Follows(from, done0)
      modifies this`log, fw
      ensures ok == ExtensionOk(cfg, io) && Follows(from, done)
      ensures steps == ExtendRuleSteps(cfg, t, req, clk, io, prev)
      ensures done == done0 + steps
    {
      hide ApplyAll;
      steps := ExtendRuleSteps(cfg, t, req, clk, io, prev);
      done := done0;
      if !NeedsExplicitUnban(cfg.backend) {
        ok, done := RemoveRule(t, io.unblock, from, done);
        if !ok { return; }
      }
      ok, done := AddRule(t, req.banSecs, clk.apply, io.block, from, done);
      if !ok && !NeedsExplicitUnban(cfg.backend) {
        var again;
        again, done := AddRule(t, RemainingSecs(prev.expiry, clk.fallback), clk.fallback, io.fallback, from, done);
      }
    }

    method Unblock(ip: string, deleteOk: bool, unblock: CmdResult) returns (err: bool)
      requires Valid()
      modifies this`blockedIPs, this`blockedNets, this`log, store, fw, whitelist
      ensures err == ParseTarget(ip).None?
      ensures var steps := UnblockSteps(ParseTarget(ip), deleteOk, unblock);
              Follows(old(Here()), steps)
    {
      hide ApplyAll;
      ghost var from := Here();
      NoSteps(from);
      var parsed := ParseTarget(ip);
      if parsed.None? { return true; }
      var t := Normalize(parsed.value);
      var deleteErr, removed;
      ghost var done := RemoveEntry(t, from, []);
      deleteErr, done := Delete(t, deleteOk, from, done);
      done := UnsilenceTarget(t, from, done);
      removed, done := RemoveRule(t, unblock, from, done);
      assert done == UnblockSteps(parsed, deleteOk, unblock);
      err := false;
    }

    /** unbanExpired: takes the expired entries out of the maps, then cleans up after each. */
    method UnbanExpired(order: seq<Target>, now: Nanos, io: Target -> ExpireIo)
      requires Valid() && Enumerates(order, blockedIPs.Keys)
      modifies this`blockedIPs, this`blockedNets, this`log, store, fw, whitelist
      ensures var steps := ExpireSteps(cfg, old(View()), order, now, io);
              Follows(old(Here()), steps)
    {
      hide ApplyAll, CleanupSteps, RemoveSteps, Expired;
      ghost var from := Here();
      NoSteps(from);
      var expired;
      ghost var removed;
      expired, removed := TakeExpired(order, now);
      NothingToClean(cfg, io);
      ghost var done := removed;
      for i := 0 to |expired|
        invariant Follows(from, done) && done == removed + CleanupSteps(cfg, expired[..i], io)
      {
        var t := expired[i];
        CleanupNext(cfg, expired, i, io);
        done := CleanUp(t, io(t), from, done);
      }
      assert expired[..|expired|] == expired;
    }

    /** One round of the second loop of unbanExpired. */
    method CleanUp(t: Target, io: ExpireIo, ghost from: Mark, ghost done0: seq<Step>) returns (ghost done: seq<Step>)
      requires Follows(from, done0)
      modifies this`log, store, fw, whitelist
      ensures Follows(from, done)
      ensures var steps := (if NeedsExplicitUnban(cfg.backend) then [FwUnblock(t, io.unblock)] else [])
                           + [DeleteBan(t, io.delete), Unsilence(t)];
              done == done0 + steps
    {
      hide ApplyAll;
      done := done0;
      var gone, deleteErr;
      if NeedsExplicitUnban(cfg.backend) {
        gone, done := RemoveRule(t, io.unblock, from, done);
      }
      deleteErr, done := Delete(t, io.delete, from, done);
      done := UnsilenceTarget(t, from, done);
    }

    /** The lock section of unbanExpired. */
    method TakeExpired(order: seq<Target>, now: Nanos) returns (expired: seq<Target>, ghost done: seq<Step>)
      requires Valid() && Enumerates(order, blockedIPs.Keys)
      modifies this`blockedIPs, this`blockedNets, this`log
      ensures expired == Expired(old(blockedIPs), order, now) && done == RemoveSteps(expired)
      ensures Follows(old(Here()), done)
    {
      hide ApplyAll, Expired, RemoveSteps;
      ghost var from := Here();
      NoSteps(from);
      ghost var mem := blockedIPs;
      NoneExpired(mem, now);
      expired, done := [], [];
      for i := 0 to |order|
        invariant expired == Expired(mem, order[..i], now)
        invariant done == RemoveSteps(expired)
        invariant Follows(from, done)
        invariant forall j :: i <= j < |order| ==> order[j] in blockedIPs && blockedIPs[order[j]] == mem[order[j]]
      {
        var t := order[i];
        ExpiredNext(mem, order, i, now);
        if now > blockedIPs[t].expiry {
          expired := expired + [t];
          done := RemoveEntry(t, from, done);
        }
      }
      assert order[..|order|] == order;
    }

    /** reconcileFirewall: re-applies, with what is left of its TTL, every live ban that the
        firewall does not list. */
    method ReconcileFirewall(order: seq<Target>, io: ReconcileIo)
      requires Valid() && Enumerates(order, blockedIPs.Keys)
      modifies this`log, fw
      ensures var steps := ReconcileSteps(cfg, old(View()), order, io);
              Follows(old(Here()), steps)
    {
      if !io.setupOk { return; }
      var targets := LiveTargets(order, io.now);
      if !io.listOk { return; }
      var have := ListFirewall(io.listAt);
      Reapply(order, targets, have, io);
    }

    /** The second loop of reconcileFirewall, over the targets found live. */
    method Reapply(order: seq<Target>, targets: map<Target, int>, have: set<Target>, io: ReconcileIo)
      requires Valid() && have == ListedKeys(fw.rules, io.listAt)
      requires forall t :: t in targets <==> LiveIn(blockedIPs, t, io.now)
      requires forall t <- targets :: t in blockedIPs && targets[t] == RemainingSecs(blockedIPs[t].expiry, io.now)
      modifies this`log, fw
      ensures var steps := ReapplySteps(cfg, old(View()), order, io);
              Follows(old(Here()), steps)
    {
      hide ApplyAll;
      ghost var from := Here();
      NoSteps(from);
      ghost var done: seq<Step> := [];
      for i := 0 to |order|
        invariant Follows(from, done) && done == ReapplySteps(cfg, from.sys, order[..i], io)
      {
        var t := order[i];
        assert order[..i + 1][..i] == order[..i];
        assert (t in targets && FwKey(t) !in have && io.recheck(t) < blockedIPs[t].expiry) == Missing(from.sys, t, io);
        if t in targets && FwKey(t) !in have && io.recheck(t) < blockedIPs[t].expiry {
          var ok;
          ok, done := AddRule(t, targets[t], io.at(t), io.block(t), from, done);
        }
      }
      assert order[..|order|] == order;
    }

    /** The first lock section of reconcileFirewall: the live bans and their remaining TTLs. */
    method LiveTargets(order: seq<Target>, now: Nanos) returns (targets: map<Target, int>)
      requires Enumerates(order, blockedIPs.Keys)
      ensures forall t :: t in targets <==> LiveIn(blockedIPs, t, now)
      ensures forall t <- targets :: t in blockedIPs && targets[t] == RemainingSecs(blockedIPs[t].expiry, now)
    {
      targets := map[];
      for i := 0 to |order|
        invariant forall t :: t in targets <==> t in order[..i] && LiveIn(blockedIPs, t, now)
        invariant forall t <- targets :: targets[t] == RemainingSecs(blockedIPs[t].expiry, now)
      {
        var t := order[i];
        if now < blockedIPs[t].expiry {
          targets := targets[t := RemainingSecs(blockedIPs[t].expiry, now)];
        }
      }
      assert order[..|order|] == order;
    }

    method ListFirewall(at: Nanos) returns (have: set<Target>)
      ensures have == ListedKeys(fw.rules, at)
    {
      var present := fw.ListBlocked(at);
      have := {};
      for i := 0 to |present|
        invariant have == set p | p in present[..i] :: FwKey(p)
      {
        have := have + {FwKey(present[i])};
        assert forall p <- present[..i + 1] :: p in present[..i] || p == present[i];
      }
      assert present[..|present|] == present;
    }

    /** loadBansFromStore, when the query succeeds. */
    method LoadBansFromStore(rowOrder: seq<Target>, now: Nanos)
      requires Valid() && Enumerates(rowOrder, ActiveRows(store.rows, now).Keys)
      modifies this`blockedIPs, this`blockedNets, this`log, whitelist
      ensures var steps := LoadSteps(old(View()), ActiveRows(old(store.rows), now), rowOrder);
              Follows(old(Here()), steps)
    {
      hide ApplyAll;
      ghost var from := Here();
      NoSteps(from);
      var rows := ActiveRows(store.rows, now);
      ghost var done: seq<Step> := [];
      for i := 0 to |rowOrder|
        invariant Follows(from, done) && done == LoadSteps(from.sys, rows, rowOrder[..i])
        invariant forall j :: i <= j < |rowOrder| ==> (rowOrder[j] in blockedIPs <==> rowOrder[j] in from.sys.mem)
      {
        var t := rowOrder[i];
        assert t in rowOrder;
        assert rowOrder[..i + 1][..i] == rowOrder[..i];
        if t !in blockedIPs {
          done := Adopt(t, Entry(rows[t].expiresAt * SECOND, rows[t].moduleName), from, done);
        }
      }
      assert rowOrder[..|rowOrder|] == rowOrder;
    }

    /** loadBansFromFirewalld, the fallback when the store cannot be read: every listed rule
        becomes a ban of the configured length. */
    method LoadBansFromFirewall(present: seq<Target>, banSecs: int, now: Nanos)
      requires Valid()
      modifies this`blockedIPs, this`blockedNets, this`log, whitelist
      ensures var steps := ImportSteps(old(View()), present, Entry(BanExpiry(banSecs, now), "restored"));
              Follows(old(Here()), steps)
    {
      hide ApplyAll, NetOf, ImportSteps;
      ghost var from := Here();
      NoSteps(from);
      var e := Entry(BanExpiry(banSecs, now), "restored");
      NothingImported(from.sys, e);
      ghost var done: seq<Step> := [];
      for i := 0 to |present|
        invariant Follows(from, done) && done == ImportSteps(from.sys, present[..i], e)
        invariant forall t :: t in blockedIPs <==> t in from.sys.mem || t in present[..i]
      {
        var t := present[i];
        ImportNext(from.sys, present, i, e);
        if t !in blockedIPs {
          done := Adopt(t, e, from, done);
        }
      }
      assert present[..|present|] == present;
    }

    method Adopt(t: Target, e: Entry, ghost from: Mark, ghost done0: seq<Step>) returns (ghost done: seq<Step>)
      requires Follows(from, done0)
      modifies this`blockedIPs, this`blockedNets, this`log, whitelist
      ensures done == done0 + [Insert(t, e), Silence(t)] && Follows(from, done)
      ensures blockedIPs.Keys == old(blockedIPs).Keys + {t}
    {
      hide ApplyAll, NetOf;
      done := InsertEntry(t, e, from, done0);
      done := SilenceTarget(t, from, done);
    }

    /** LoadExistingBans in a new process: the store is authoritative when it can be read, and
        the firewall is then reconciled with it. The steps are those of a restart after the
        loss of memory. */
    method LoadExistingBans(storeOk: bool, rowOrder: seq<Target>, now: Nanos, order: seq<Target>, io: ReconcileIo,
                            listed: Option<seq<Target>>, banSecs: int)
      requires Valid() && blockedIPs == map[] && blockedNets == map[] && whitelist.silenced == {}
      requires Enumerates(rowOrder, ActiveRows(store.rows, now).Keys)
      requires Enumerates(order, ActiveRows(store.rows, now).Keys)
      modifies this`blockedIPs, this`blockedNets, this`log, whitelist, fw
      ensures Valid()
      ensures storeOk ==>
                View() == ApplyAll(old(View()), RestartSteps(cfg, old(View()), rowOrder, now, order, io))
      ensures !storeOk ==>
                var present := if listed.Some? then listed.value else [];
                var e := Entry(BanExpiry(banSecs, now), "restored");
                View() == ApplyAll(old(View()), ImportStartSteps(old(View()), present, e))
    {
      hide ApplyAll;
      if storeOk {
        ghost var start := View();
        assert Apply(start, Reset) == start;
        BanEffects.LoadEffect(start, ActiveRows(store.rows, now), rowOrder);
        LoadBansFromStore(rowOrder, now);
        ghost var load := LoadSteps(start, ActiveRows(start.store, now), rowOrder);
        ghost var loaded := View();
        assert BanEffects.Keys(rowOrder) == ActiveRows(start.store, now).Keys;
        ReconcileFirewall(order, io);
        ApplyAllOne(start, Reset);
        ApplyAllAppend(start, [Reset], load);
        ApplyAllAppend(start, [Reset] + load, ReconcileSteps(cfg, loaded, order, io));
      } else {
        ghost var start := View();
        ghost var e := Entry(BanExpiry(banSecs, now), "restored");
        assert Apply(start, Reset) == start;
        ApplyAllOne(start, Reset);
        if listed.Some? {
          LoadBansFromFirewall(listed.value, banSecs, now);
          ApplyAllAppend(start, [Reset], ImportSteps(start, listed.value, e));
        } else {
          NothingImported(start, e);
          assert [Reset] + [] == [Reset];
        }
      }
    }

    /** blockingNetLocked: some live network entry that contains the address, if any. */
    method BlockingNet(ip: Addr, now: Nanos) returns (key: Option<Target>)
      ensures key.Some? ==>
                && key.value in blockedNets && LiveIn(blockedIPs, key.value, now)
                && Contains(blockedNets[key.value], ip)
      ensures key.None? ==> forall c <- blockedNets :: !(LiveIn(blockedIPs, c, now) && Contains(blockedNets[c], ip))
    {
      var rest := blockedNets.Keys;
      while rest != {}
        invariant rest <= blockedNets.Keys
        invariant forall c <- blockedNets.Keys - rest :: !(LiveIn(blockedIPs, c, now) && Contains(blockedNets[c], ip))
      {
        var c :| c in rest;
        if c in blockedIPs && now < blockedIPs[c].expiry && Contains(blockedNets[c], ip) { return Some(c); }
        rest := rest - {c};
      }
      key := None;
    }

    /** GetBlockedIP: the entry that blocks the queried text, if there is one. */
    method GetBlockedIp(ip: string, now: Nanos) returns (info: Option<BlockedInfo>)
      ensures info.Some? ==>
                BlocksText(View(), ip, now, info.value.key) && info.value.entry == blockedIPs[info.value.key]
      ensures info.None? ==> forall k :: !BlocksText(View(), ip, now, k)
    {
      hide Format, ParseTarget, Contains;
      var parsed := ParseTarget(ip);
      forall k | Format(k) == ip ensures parsed == Some(k) { ParsePrinted(k); }
      if parsed.None? { return None; }
      var q := parsed.value;
      if Format(q) == ip && q in blockedIPs && now < blockedIPs[q].expiry {
        return Some(BlockedInfo(q, blockedIPs[q]));
      }
      if q.Cidr? { return None; }
      var key := BlockingNet(q.addr, now);
      info := if key.Some? then Some(BlockedInfo(key.value, blockedIPs[key.value])) else None;
    }

    method IsBlocked(ip: string, now: Nanos) returns (r: bool)
      ensures r <==> exists k :: BlocksText(View(), ip, now, k)
    {
      var info := GetBlockedIp(ip, now);
      r := info.Some?;
    }

    /** suspendAccount: the account first (unless its IP is from an allowed country, or it is
        suspended already), then the IP of the alert, then the notice to the user, if a user notifier
        is configured. */
    method SuspendAccount(account: string, ip: string, moduleName: string, banSecs: int,
                          zmprovOk: bool, userNotice: Option<bool>, clk: Clock, io: BlockIo)
      returns (outcomes: seq<Outcome>)
      requires Valid()
      modifies this, store, fw, whitelist
      ensures Valid() && |outcomes| >= 1
      ensures outcomes[..1] == [SuspendOutcome(cfg, old(suspendedAccts), account, ip, zmprovOk)]
      ensures suspendedAccts ==
              if outcomes[0] == Applied then old(suspendedAccts)[account := moduleName] else old(suspendedAccts)
      ensures suspsTotal == old(suspsTotal) + (if outcomes[0] == Applied then 1 else 0)
      ensures var req := Request(ParseTarget(ip), moduleName, banSecs);
              var blocks := outcomes[0] in {Applied, Already} && ip != "" && Decide(cfg, old(View()), req, clk).Fresh?
                            && BlockOutcome(cfg, old(View()), req, clk, io) == Applied;
              blocksTotal == old(blocksTotal) + (if blocks then 1 else 0)
      ensures var req := Request(ParseTarget(ip), moduleName, banSecs);
              if outcomes[0] in {Skipped, Failed} || ip == ""
              then View() == old(View()) && log == old(log)
                   && outcomes[1..] == (if outcomes[0] == Applied && userNotice.Some?
                                        then [if userNotice.value then Applied else Failed] else [])
              else View() == ApplyAll(old(View()), BlockSteps(cfg, old(View()), req, clk, io))
                   && outcomes[1..] == [BlockOutcome(cfg, old(View()), req, clk, io)]
                                       + (if outcomes[0] == Applied && userNotice.Some?
                                          then [if userNotice.value then Applied else Failed] else [])
    {
      hide ApplyAll, BlockSteps, BlockOutcome, Decide, VetoedByCountry, ParseTarget;
      if VetoedByCountry(cfg.allowedCountries, cfg.geo, ip) { return [Skipped]; }
      if account in suspendedAccts {
        outcomes := [Already];
        if ip != "" {
          var blocked := BlockIpWithTtl(ip, moduleName, banSecs, clk, io);
          outcomes := outcomes + [blocked];
        }
        return;
      }
      if !zmprovOk { return [Failed]; }
      suspsTotal := suspsTotal + 1;
      suspendedAccts := suspendedAccts[account := moduleName];
      outcomes := [Applied];
      if ip != "" {
        var blocked := BlockIpWithTtl(ip, moduleName, banSecs, clk, io);
        outcomes := outcomes + [blocked];
      }
      if userNotice.Some? {
        outcomes := outcomes + [if userNotice.value then Applied else Failed];
      }
    }
  }

  /** The main outcome of a suspension request. */
  function SuspendOutcome(cfg: Config, suspended: map<string, string>, account: string, ip: string,
                          zmprovOk: bool): Outcome {
    if VetoedByCountry(cfg.allowedCountries, cfg.geo, ip) then Skipped
    else if account in suspended then Already
    else if zmprovOk then Applied
    else Failed
  }
}
