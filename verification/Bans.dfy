/** The ban lifecycle as a protocol: the five views of one fact and the small steps the
    enforcer's operations make on them. */
module Bans {
  import opened Ipv4
  import opened TargetText
  import opened Countries
  import opened Time

  const FIFTY_YEARS: int := 50 * 365 * 24 * 3600 * SECOND
  const PERMANENT: int := 2 * FIFTY_YEARS

  // ---- TTL arithmetic ----

  /** Go's integer conversion of a duration in seconds: towards zero. */
  function WholeSeconds(d: Nanos): int {
    if d >= 0 then d / SECOND else -(-d / SECOND)
  }

  /** Unix seconds of a time: towards the past. */
  function UnixSeconds(t: Nanos): int { t / SECOND }

  function BanExpiry(banSecs: int, now: Nanos): Nanos {
    if banSecs > 0 then now + banSecs * SECOND else now + PERMANENT
  }

  /** The TTL to ask the firewall for (0: permanent). */
  function RemainingSecs(expiry: Nanos, now: Nanos): int {
    if expiry - now >= FIFTY_YEARS then 0 else WholeSeconds(expiry - now) + 1
  }

  // ---- state ----

  datatype Backend = Firewalld | FirewalldIpset | Ufw

  predicate NeedsExplicitUnban(b: Backend) { b != Firewalld }

  datatype Config = Config(backend: Backend, allowedCountries: seq<string>, geo: Option<string -> string>)

  datatype Entry = Entry(expiry: Nanos, moduleName: string)

  /** A row of the bans table: the expiry is kept in whole Unix seconds. */
  datatype Row = Row(moduleName: string, expiresAt: int)

  /** mem and nets are the enforcer's two maps, store the bans table, silenced the engine's
      silence set, rules the firewall: each rule with the time its own timeout ends, if any. */
  datatype Sys = Sys(
    mem: map<Target, Entry>,
    nets: map<Target, Net>,
    store: map<Target, Row>,
    silenced: set<Net>,
    rules: map<Target, Option<Nanos>>)

  /** What became of one firewall command: the success it reports, and whether it changed
      the rules (a failed command may have, a repeated one need not). */
  datatype CmdResult = CmdResult(ok: bool, effect: bool)

  // ---- steps ----

  datatype Step =
    | Insert(t: Target, e: Entry)               // new entry, in both maps
    | Replace(t: Target, e: Entry)              // extension or restoration: blockedIPs only
    | Remove(t: Target)                         // from both maps
    | SaveBan(t: Target, row: Row, ok: bool)
    | DeleteBan(t: Target, ok: bool)
    | PruneBans(now: Nanos, ok: bool)
    | Silence(t: Target)
    | Unsilence(t: Target)
    | FwBlock(t: Target, until: Option<Nanos>, res: CmdResult)
    | FwUnblock(t: Target, res: CmdResult)
    | Reset                                     // the process ends: its memory is gone

  function Apply(s: Sys, step: Step): Sys {
    match step
    case Insert(t, e) =>
      s.(mem := s.mem[t := e], nets := if t.Cidr? then s.nets[t := NetOf(t)] else s.nets)
    case Replace(t, e) => s.(mem := s.mem[t := e])
    case Remove(t) => s.(mem := s.mem - {t}, nets := s.nets - {t})
    case SaveBan(t, row, ok) => if ok then s.(store := s.store[t := row]) else s
    case DeleteBan(t, ok) => if ok then s.(store := s.store - {t}) else s
    case PruneBans(now, ok) => if ok then s.(store := ActiveRows(s.store, now)) else s
    case Silence(t) => s.(silenced := s.silenced + {NetOf(t)})
    case Unsilence(t) => s.(silenced := s.silenced - {NetOf(t)})
    case FwBlock(t, until, res) => if res.effect then s.(rules := s.rules[t := until]) else s
    case FwUnblock(t, res) => if res.effect then s.(rules := s.rules - {t}) else s
    case Reset => s.(mem := map[], nets := map[], silenced := {})
  }

  function ApplyAll(s: Sys, steps: seq<Step>): Sys {
    if steps == [] then s else Apply(ApplyAll(s, steps[..|steps| - 1]), steps[|steps| - 1])
  }

  function ActiveRows(store: map<Target, Row>, now: Nanos): map<Target, Row> {
    map t | t in store && store[t].expiresAt > UnixSeconds(now) :: store[t]
  }

  predicate LiveIn(mem: map<Target, Entry>, t: Target, now: Nanos) {
    t in mem && now < mem[t].expiry
  }

  predicate RuleActive(rules: map<Target, Option<Nanos>>, t: Target, now: Nanos) {
    t in rules && (rules[t].None? || now < rules[t].value)
  }

  /** A host is blocked by its own entry or by the live network entry that contains it. */
  ghost predicate BlockedBy(s: Sys, q: Target, now: Nanos, key: Target) {
    && LiveIn(s.mem, key, now)
    && (key == q || (q.Host? && key in s.nets && Contains(s.nets[key], q.addr)))
  }

  /** The same for a query text: entries are looked up by their text, networks by the address the
      text names. */
  ghost predicate BlocksText(s: Sys, text: string, now: Nanos, key: Target) {
    && LiveIn(s.mem, key, now)
    && (Format(key) == text
        || (ParseTarget(text).Some? && ParseTarget(text).value.Host?
            && key in s.nets && Contains(s.nets[key], ParseTarget(text).value.addr)))
  }

  /** For an address as it is printed both are the same. */
  lemma PrintedAddressBlocks(s: Sys, ip: Addr, now: Nanos, key: Target)
    ensures BlocksText(s, FormatAddr(ip), now, key)
       <==> BlockedBy(s, Host(ip), now, key)
  {
    hide FormatAddr, ParseTarget, Contains;
    ParsePrinted(key);
    ParsePrinted(Host(ip));
  }

  /** The firewall's own end of a rule: only firewalld rich rules carry a timeout, and only
      for a positive TTL. */
  function RuleUntil(b: Backend, banSecs: int, at: Nanos): Option<Nanos> {
    if b == Firewalld && banSecs > 0 then Some(at + banSecs * SECOND) else None
  }

  // ---- blockIPWithTTL, extendBan ----

  datatype Outcome = Applied | Skipped | Already | Failed

  /** A block request; an unreadable target text is None. */
  datatype Request = Request(target: Option<Target>, moduleName: string, banSecs: int)

  /** The clock readings of one block operation, in the order they are taken. */
  datatype Clock = Clock(expiry: Nanos, check: Nanos, save: Nanos, apply: Nanos, fallback: Nanos) {
    ghost predicate Monotone() { expiry <= check <= save <= apply <= fallback }
  }

  /** What became of each external call of one block operation. */
  datatype BlockIo = BlockIo(
    save: bool, delete: bool, restore: bool,
    unblock: CmdResult, block: CmdResult, fallback: CmdResult)

  datatype Decision = Invalid | Private | Country | Duplicate | Extend(prev: Entry) | Fresh

  /** The guards of blockIPWithTTL, for a canonical target. */
  function Decide(cfg: Config, s: Sys, req: Request, clk: Clock): Decision {
    if req.target.None? then Invalid
    else
      var t := Normalize(req.target.value);
      if IsPrivateIp(t.addr) then Private
      else if req.moduleName != "manual" && VetoedByCountry(cfg.allowedCountries, cfg.geo, FormatAddr(t.addr))
      then Country
      else if LiveIn(s.mem, t, clk.check) then
        if BanExpiry(req.banSecs, clk.expiry) > s.mem[t].expiry + MINUTE then Extend(s.mem[t]) else Duplicate
      else Fresh
  }

  function FreshSteps(cfg: Config, t: Target, req: Request, clk: Clock, io: BlockIo): seq<Step> {
    var expiry := BanExpiry(req.banSecs, clk.expiry);
    [Insert(t, Entry(expiry, req.moduleName)),
     SaveBan(t, Row(req.moduleName, UnixSeconds(expiry)), io.save),
     FwBlock(t, RuleUntil(cfg.backend, req.banSecs, clk.apply), io.block)]
    + (if io.block.ok then [Silence(t)] else [Remove(t), DeleteBan(t, io.delete)])
  }

  function RestoreSteps(t: Target, prev: Entry, io: BlockIo): seq<Step> {
    [Replace(t, prev), SaveBan(t, Row(prev.moduleName, UnixSeconds(prev.expiry)), io.restore)]
  }

  /** What the fallback of an extension asks for: the rest of the earlier ban. */
  function RuleAgain(cfg: Config, clk: Clock, prev: Entry): Option<Nanos> {
    RuleUntil(cfg.backend, RemainingSecs(prev.expiry, clk.fallback), clk.fallback)
  }

  /** The firewall half of extendBan. firewalld has to replace the rule that carries the old
      timeout; if the new one fails, what is left of the old ban is asked for again. */
  function ExtendRuleSteps(cfg: Config, t: Target, req: Request, clk: Clock, io: BlockIo, prev: Entry): seq<Step> {
    var block := FwBlock(t, RuleUntil(cfg.backend, req.banSecs, clk.apply), io.block);
    var again := FwBlock(t, RuleAgain(cfg, clk, prev), io.fallback);
    if NeedsExplicitUnban(cfg.backend) then [block]
    else
      [FwUnblock(t, io.unblock)]
      + (if !io.unblock.ok then [] else if io.block.ok then [block] else [block, again])
  }

  predicate ExtensionOk(cfg: Config, io: BlockIo) {
    io.block.ok && (NeedsExplicitUnban(cfg.backend) || io.unblock.ok)
  }

  function ExtendSteps(cfg: Config, t: Target, req: Request, clk: Clock, io: BlockIo, prev: Entry): seq<Step> {
    [Replace(t, Entry(BanExpiry(req.banSecs, clk.expiry), req.moduleName)),
     SaveBan(t, Row(req.moduleName, UnixSeconds(BanExpiry(req.banSecs, clk.save))), io.save)]
    + ExtendRuleSteps(cfg, t, req, clk, io, prev)
    + (if ExtensionOk(cfg, io) then [] else RestoreSteps(t, prev, io))
  }

  function BlockSteps(cfg: Config, s: Sys, req: Request, clk: Clock, io: BlockIo): seq<Step> {
    match Decide(cfg, s, req, clk)
    case Fresh => FreshSteps(cfg, Normalize(req.target.value), req, clk, io)
    case Extend(prev) => ExtendSteps(cfg, Normalize(req.target.value), req, clk, io, prev)
    case _ => []
  }

  function BlockOutcome(cfg: Config, s: Sys, req: Request, clk: Clock, io: BlockIo): Outcome {
    match Decide(cfg, s, req, clk)
    case Invalid => Failed
    case Private => Skipped
    case Country => Skipped
    case Duplicate => Already
    case Extend(_) => if ExtensionOk(cfg, io) then Applied else Failed
    case Fresh => if io.block.ok then Applied else Failed
  }

  // ---- Unblock ----

  function UnblockSteps(target: Option<Target>, deleteOk: bool, unblock: CmdResult): seq<Step> {
    if target.None? then []
    else
      var t := Normalize(target.value);
      [Remove(t), DeleteBan(t, deleteOk), Unsilence(t), FwUnblock(t, unblock)]
  }

  // ---- unbanExpired ----

  /** The order in which a map is iterated: every key once. */
  ghost predicate Enumerates(order: seq<Target>, keys: set<Target>) {
    && (forall t :: t in order <==> t in keys)
    && (forall i, j :: 0 <= i < j < |order| ==> order[i] != order[j])
  }

  datatype ExpireIo = ExpireIo(unblock: CmdResult, delete: bool)

  function Expired(mem: map<Target, Entry>, order: seq<Target>, now: Nanos): seq<Target> {
    if order == [] then []
    else
      var t := order[|order| - 1];
      Expired(mem, order[..|order| - 1], now) + (if t in mem && now > mem[t].expiry then [t] else [])
  }

  function RemoveSteps(ts: seq<Target>): seq<Step> {
    seq(|ts|, i requires 0 <= i < |ts| => Remove(ts[i]))
  }

  lemma NoneExpired(mem: map<Target, Entry>, now: Nanos)
    ensures Expired(mem, [], now) == [] && RemoveSteps([]) == []
  {
  }

  lemma ExpiredNext(mem: map<Target, Entry>, order: seq<Target>, i: nat, now: Nanos)
    requires i < |order|
    ensures var ts, t := Expired(mem, order[..i], now), order[i];
            && Expired(mem, order[..i + 1], now) == ts + (if t in mem && now > mem[t].expiry then [t] else [])
            && RemoveSteps(ts + [t]) == RemoveSteps(ts) + [Remove(t)]
            && ts + [] == ts
  {
    assert order[..i + 1][..i] == order[..i];
  }

  /** What the expiry loop does for the targets it took out of the maps. */
  function CleanupSteps(cfg: Config, ts: seq<Target>, io: Target -> ExpireIo): seq<Step> {
    if ts == [] then []
    else
      var t := ts[|ts| - 1];
      CleanupSteps(cfg, ts[..|ts| - 1], io)
      + (if NeedsExplicitUnban(cfg.backend) then [FwUnblock(t, io(t).unblock)] else [])
      + [DeleteBan(t, io(t).delete), Unsilence(t)]
  }

  lemma CleanupNext(cfg: Config, ts: seq<Target>, i: nat, io: Target -> ExpireIo)
    requires i < |ts|
    ensures CleanupSteps(cfg, ts[..i + 1], io) ==
            CleanupSteps(cfg, ts[..i], io)
            + ((if NeedsExplicitUnban(cfg.backend) then [FwUnblock(ts[i], io(ts[i]).unblock)] else [])
               + [DeleteBan(ts[i], io(ts[i]).delete), Unsilence(ts[i])])
  {
    assert ts[..i + 1][..i] == ts[..i];
  }

  lemma NothingToClean(cfg: Config, io: Target -> ExpireIo)
    ensures CleanupSteps(cfg, [], io)
         == []
  {
  }

  function ExpireSteps(cfg: Config, s: Sys, order: seq<Target>, now: Nanos, io: Target -> ExpireIo): seq<Step> {
    var ts := Expired(s.mem, order, now);
    RemoveSteps(ts) + CleanupSteps(cfg, ts, io)
  }

  // ---- reconcileFirewall ----

  /** One reconciliation: the snapshot time, whether the backend is set up and can be listed
      (and when), and for each target the time of the second look, of the command, and what
      became of it. */
  datatype ReconcileIo = ReconcileIo(
    now: Nanos, setupOk: bool, listOk: bool, listAt: Nanos,
    recheck: Target -> Nanos, at: Target -> Nanos, block: Target -> CmdResult)

  function ListedKeys(rules: map<Target, Option<Nanos>>, at: Nanos): set<Target> {
    set k | k in rules && RuleActive(rules, k, at) :: FwKey(k)
  }

  predicate Missing(s: Sys, t: Target, io: ReconcileIo) {
    && LiveIn(s.mem, t, io.now)
    && FwKey(t) !in ListedKeys(s.rules, io.listAt)
    && io.recheck(t) < s.mem[t].expiry
  }

  function ReapplySteps(cfg: Config, s: Sys, order: seq<Target>, io: ReconcileIo): seq<Step> {
    if order == [] then []
    else
      var t := order[|order| - 1];
      ReapplySteps(cfg, s, order[..|order| - 1], io) + ReapplyStep(cfg, s, t, io)
  }

  function ReapplyStep(cfg: Config, s: Sys, t: Target, io: ReconcileIo): seq<Step> {
    if Missing(s, t, io)
    then [FwBlock(t, RuleUntil(cfg.backend, RemainingSecs(s.mem[t].expiry, io.now), io.at(t)), io.block(t))]
    else []
  }

  function ReconcileSteps(cfg: Config, s: Sys, order: seq<Target>, io: ReconcileIo): seq<Step> {
    if io.setupOk && io.listOk then ReapplySteps(cfg, s, order, io) else []
  }

  // ---- LoadExistingBans ----

  /** loadBansFromStore over the active rows, in the order the query returns them. */
  function LoadSteps(s: Sys, rows: map<Target, Row>, order: seq<Target>): seq<Step> {
    if order == [] then []
    else
      var t := order[|order| - 1];
      LoadSteps(s, rows, order[..|order| - 1])
      + (if t in rows && t !in s.mem
         then [Insert(t, Entry(rows[t].expiresAt * SECOND, rows[t].moduleName)), Silence(t)]
         else [])
  }

  /** loadBansFromFirewalld over the listed rules. */
  function ImportSteps(s: Sys, present: seq<Target>, e: Entry): seq<Step> {
    if present == [] then []
    else
      var init, t := present[..|present| - 1], present[|present| - 1];
      ImportSteps(s, init, e) + (if t in s.mem || t in init then [] else [Insert(t, e), Silence(t)])
  }

  lemma ImportNext(s: Sys, present: seq<Target>, i: nat, e: Entry)
    requires i < |present|
    ensures var before, t := ImportSteps(s, present[..i], e), present[i];
            && ImportSteps(s, present[..i + 1], e) ==
               before + (if t in s.mem || t in present[..i] then [] else [Insert(t, e), Silence(t)])
            && (forall u :: u in present[..i + 1] <==> u in present[..i] || u == t)
            && before + [] == before
  {
    assert present[..i + 1] == present[..i] + [present[i]];
  }

  lemma NothingImported(s: Sys, e: Entry)
    ensures ImportSteps(s, [], e) == []
  {
  }

  /** A start at which the store cannot be read: memory is empty, and the listed rules are taken
      for bans. */
  function ImportStartSteps(s: Sys, present: seq<Target>, e: Entry): seq<Step> {
    [Reset] + ImportSteps(Apply(s, Reset), present, e)
  }

  /** A restart: memory is empty, the active bans are loaded, the firewall is reconciled. */
  function RestartSteps(cfg: Config, s: Sys, rowOrder: seq<Target>, now: Nanos, order: seq<Target>,
                        io: ReconcileIo): seq<Step> {
    var empty := Apply(s, Reset);
    var load := LoadSteps(empty, ActiveRows(s.store, now), rowOrder);
    [Reset] + load + ReconcileSteps(cfg, ApplyAll(empty, load), order, io)
  }

  // ---- basic facts ----

  lemma {:induction false} ApplyAllAppend(s: Sys, a: seq<Step>, b: seq<Step>)
    ensures ApplyAll(s, a + b) == ApplyAll(ApplyAll(s, a), b)
  {
    if b == [] {
      assert a + b == a;
    } else {
      ApplyAllAppend(s, a, b[..|b| - 1]);
      assert (a + b)[..|a + b| - 1] == a + b[..|b| - 1];
    }
  }

  lemma ApplyAllOne(s: Sys, step: Step)
    ensures ApplyAll(s, [step]) == Apply(s, step)
  {
    assert ApplyAll(s, [step]) == Apply(ApplyAll(s, [step][..0]), step);
  }

  lemma {:induction false} ExpiredExact(mem: map<Target, Entry>, order: seq<Target>, now: Nanos)
    ensures forall t :: t in Expired(mem, order, now) <==> t in order && t in mem && now > mem[t].expiry
  {
    if order != [] { ExpiredExact(mem, order[..|order| - 1], now); }
  }

  // ---- TTL properties ----

  /** Before the expiry, the re-applied TTL covers the rest of the ban and at most one second
      more, and is 0 (permanent) exactly when 50 years or more remain. */
  lemma RemainingCoversBan(expiry: Nanos, now: Nanos)
    requires now < expiry
    ensures var secs := RemainingSecs(expiry, now);
            && (secs == 0 <==> expiry - now >= FIFTY_YEARS)
            && (secs != 0 ==> 0 < expiry - now < secs * SECOND <= expiry - now + SECOND)
  {
  }

  /** Without that guard (the fallback of an extension, after slow commands) the TTL may ask
      for a permanent rule on behalf of an ended ban: exactly when the ban ended a full
      second ago or more. */
  lemma FallbackTurnsPermanent(expiry: Nanos, now: Nanos, at: Nanos)
    ensures RuleUntil(Firewalld, RemainingSecs(expiry, now), at).None?
        <==> expiry - now >= FIFTY_YEARS || now - expiry >= SECOND
  {
  }

  /** The rule asked for a ban at or after its expiry was computed never ends before it. */
  lemma RuleOutlastsBan(b: Backend, banSecs: int, computed: Nanos, at: Nanos)
    requires computed <= at
    ensures var until := RuleUntil(b, banSecs, at);
            until.None? || until.value >= BanExpiry(banSecs, computed)
  {
  }
}
