/** Store and forward: alerts are saved in a local table and sent to the controller in batches,
    oldest first; a batch is marked only when the controller accepted it. */
module Forwarders {
  import opened Events
  import opened Time

  const DAY: int := 24 * 60 * 60

  // ---- the table of pending events ----

  datatype Entry = Entry(id: nat, alert: Alert)

  /** createdAt is in seconds. */
  datatype Row = Row(entry: Entry, synced: bool, createdAt: int)

  /** The table, every entry ever inserted, and every entry the controller took, in order. */
  datatype Sys = Sys(rows: seq<Row>, lastId: nat, saved: seq<Entry>, accepted: seq<Entry>)

  /** SELECT ... WHERE synced = 0 ORDER BY id */
  function Pending(rows: seq<Row>): seq<Entry> {
    if rows == [] then []
    else Pending(rows[..|rows| - 1]) + (if rows[|rows| - 1].synced then [] else [rows[|rows| - 1].entry])
  }

  /** LIMIT; a negative one does not limit. */
  function Limited(pending: seq<Entry>, limit: int): seq<Entry> {
    if 0 <= limit < |pending| then pending[..limit] else pending
  }

  function Ids(entries: seq<Entry>): seq<nat> { seq(|entries|, i requires 0 <= i < |entries| => entries[i].id) }

  /** UPDATE ... SET synced = 1, for every id. */
  function Marked(rows: seq<Row>, ids: seq<nat>): seq<Row> {
    seq(|rows|, i requires 0 <= i < |rows| => rows[i].(synced := rows[i].synced || rows[i].entry.id in ids))
  }

  /** Old enough, where age 0 is every age, and, unless all may go, synced. */
  predicate Doomed(r: Row, maxAge: int, now: int, all: bool) {
    (all || r.synced) && (maxAge == 0 || r.createdAt <= now - maxAge)
  }

  function Kept(rows: seq<Row>, maxAge: int, now: int, all: bool): seq<Row> {
    if rows == [] then []
    else
      var last := rows[|rows| - 1];
      Kept(rows[..|rows| - 1], maxAge, now, all) + (if Doomed(last, maxAge, now, all) then [] else [last])
  }

  datatype Save = Save(alert: Alert, now: int, ok: bool)

  /** The table keeps whole seconds. */
  function Stored(s: Sys, a: Alert): Entry { Entry(s.lastId + 1, a.(ts := a.ts / SECOND * SECOND)) }

  function Inserted(s: Sys, save: Save): Sys {
    if !save.ok then s
    else
      var e := Stored(s, save.alert);
      s.(rows := s.rows + [Row(e, false, save.now)], lastId := s.lastId + 1, saved := s.saved + [e])
  }

  function InsertedAll(s: Sys, saves: seq<Save>): Sys {
    if saves == [] then s else Inserted(InsertedAll(s, saves[..|saves| - 1]), saves[|saves| - 1])
  }

  class EventStore {
    var rows: seq<Row>
    var lastId: nat
    ghost var saved: seq<Entry>

    ghost function View(accepted: seq<Entry>): Sys reads this { Sys(rows, lastId, saved, accepted) }

    constructor ()
      ensures View([]) == Sys([], 0, [], [])
    {
      rows, lastId, saved := [], 0, [];
    }

    method SaveEvent(save: Save)
      modifies this
      ensures View([]) == Inserted(old(View([])), save)
    {
      if !save.ok { return; }
      lastId := lastId + 1;
      var e := Entry(lastId, save.alert.(ts := save.alert.ts / SECOND * SECOND));
      rows := rows + [Row(e, false, save.now)];
      saved := saved + [e];
    }

    method LoadUnsynced(limit: int) returns (entries: seq<Entry>)
      ensures entries == Limited(Pending(rows), limit)
    {
      entries := [];
      var i := 0;
      while i < |rows| && (limit < 0 || |entries| < limit)
        invariant i <= |rows| && entries == Pending(rows[..i]) && (limit >= 0 ==> |entries| <= limit)
      {
        assert rows[..i + 1][..i] == rows[..i];
        if !rows[i].synced { entries := entries + [rows[i].entry]; }
        i := i + 1;
      }
      PendingConcat(rows[..i], rows[i..]);
      assert rows == rows[..i] + rows[i..];
      if i == |rows| { assert rows[i..] == []; }
    }

    /** One transaction: the statement for ids[failsAt] fails, or, just past the last, the
        commit; a failure rolls everything back. Outside of that range nothing fails. */
    method MarkSynced(ids: seq<nat>, failsAt: int) returns (ok: bool)
      modifies this`rows
      ensures ok <==> ids == [] || !(0 <= failsAt <= |ids|)
      ensures rows == if ok then Marked(old(rows), ids) else old(rows)
    {
      if ids == [] { return true; }
      var before := rows;
      for i := 0 to |ids|
        invariant rows == Marked(before, ids[..i]) && !(0 <= failsAt < i)
      {
        if i == failsAt { rows := before; return false; }
        assert ids[..i + 1] == ids[..i] + [ids[i]];
        var current, id := rows, ids[i];
        rows := seq(|current|, j requires 0 <= j < |current| =>
          if current[j].entry.id == id then current[j].(synced := true) else current[j]);
      }
      assert ids[..|ids|] == ids;
      if failsAt == |ids| { rows := before; return false; }
      ok := true;
    }

    method PruneEvents(maxAge: int, now: int, all: bool)
      modifies this`rows
      ensures rows == Kept(old(rows), maxAge, now, all)
    {
      var before, kept := rows, [];
      for i := 0 to |before|
        invariant kept == Kept(before[..i], maxAge, now, all)
      {
        assert before[..i + 1][..i] == before[..i];
        if !Doomed(before[i], maxAge, now, all) { kept := kept + [before[i]]; }
      }
      assert before[..|before|] == before;
      rows := kept;
    }
  }

  // ---- the forwarder ----

  datatype Config = Config(connected: bool, batchSize: int, retention: int)

  function WithDefaults(cfg: Config): Config {
    Config(cfg.connected,
           if cfg.batchSize == 0 then 100 else cfg.batchSize,
           if cfg.retention == 0 then 7 * DAY else cfg.retention)
  }

  /** What became of the request. An answer may be lost although the controller took the batch. */
  datatype Reply = Lost(taken: bool) | Rejected | Accepted

  datatype Op =
    | SaveAlert(save: Save)
    | Sync(loads: bool, reply: Reply, meanwhile: seq<Save>, markFailsAt: int)
    | Prune(now: int, ok: bool)

  predicate Taken(r: Reply) { r == Accepted || r == Lost(true) }

  predicate Commits(ids: seq<nat>, failsAt: int) { ids == [] || !(0 <= failsAt <= |ids|) }

  /** Alerts keep being saved while the batch is on its way. */
  function Synced(s: Sys, limit: int, op: Op): Sys
    requires op.Sync?
  {
    var batch := if op.loads then Limited(Pending(s.rows), limit) else [];
    if batch == [] then s
    else
      var t := InsertedAll(s, op.meanwhile);
      var marks := op.reply == Accepted && Commits(Ids(batch), op.markFailsAt);
      t.(accepted := if Taken(op.reply) then t.accepted + batch else t.accepted,
         rows := if marks then Marked(t.rows, Ids(batch)) else t.rows)
  }

  function Next(cfg: Config, s: Sys, op: Op): Sys {
    match op
    case SaveAlert(save) => Inserted(s, save)
    case Sync(_, _, _, _) => if cfg.connected then Synced(s, cfg.batchSize, op) else s
    case Prune(now, ok) =>
      if !ok then s
      else if cfg.connected then s.(rows := Kept(s.rows, DAY, now, false))
      else s.(rows := Kept(s.rows, cfg.retention, now, true))
  }

  class Forwarder {
    const cfg: Config
    const store: EventStore
    ghost var accepted: seq<Entry>

    ghost function View(): Sys reads this, store { store.View(accepted) }

    constructor (cfg: Config)
      ensures this.cfg.connected == cfg.connected
      ensures this.cfg.batchSize == if cfg.batchSize == 0 then 100 else cfg.batchSize
      ensures this.cfg.retention == if cfg.retention == 0 then 7 * 86_400 else cfg.retention
      ensures fresh(store) && View() == Sys([], 0, [], [])
    {
      this.cfg := WithDefaults(cfg);
      store := new EventStore();
      accepted := [];
    }

    method Save(save: Save)
      modifies this, store
      ensures View() == Next(cfg, old(View()), SaveAlert(save))
    {
      store.SaveEvent(save);
    }

    /** syncBatch, as the sync timer calls it; what the database, the network and the other
        goroutines do is given by the operation. */
    method SyncBatch(op: Op)
      requires op.Sync?
      modifies this, store
      ensures View() == Next(cfg, old(View()), op)
    {
      hide Pending, Marked;
      if !cfg.connected || !op.loads { return; }
      var events := store.LoadUnsynced(cfg.batchSize);
      if events == [] { return; }
      ghost var start := View();
      for i := 0 to |op.meanwhile|
        invariant View() == InsertedAll(start, op.meanwhile[..i])
      {
        assert op.meanwhile[..i + 1][..i] == op.meanwhile[..i];
        InsertedFrame(store.View([]), accepted, op.meanwhile[i]);
        store.SaveEvent(op.meanwhile[i]);
      }
      assert op.meanwhile[..|op.meanwhile|] == op.meanwhile;
      if Taken(op.reply) { accepted := accepted + events; }
      if op.reply != Accepted { return; }
      var ids: seq<nat> := [];
      for i := 0 to |events|
        invariant ids == Ids(events[..i])
      {
        ids := ids + [events[i].id];
      }
      assert events[..|events|] == events;
      var ok := store.MarkSynced(ids, op.markFailsAt);
    }

    method PruneOnce(now: int, ok: bool)
      modifies store
      ensures View() == Next(cfg, old(View()), Prune(now, ok))
    {
      if !ok { return; }
      if cfg.connected {
        store.PruneEvents(DAY, now, false);
      } else {
        store.PruneEvents(cfg.retention, now, true);
      }
    }
  }

  lemma InsertedFrame(s: Sys, accepted: seq<Entry>, save: Save)
    ensures Inserted(s, save).(accepted := accepted)
         == Inserted(s.(accepted := accepted), save)
  {
  }

  lemma {:induction false} PendingConcat(a: seq<Row>, b: seq<Row>)
    ensures Pending(a + b) == Pending(a) + Pending(b)
  {
    if b == [] {
      assert a + b == a;
    } else {
      assert (a + b)[..|a + b| - 1] == a + b[..|b| - 1];
      PendingConcat(a, b[..|b| - 1]);
    }
  }

  // ---- connected runs ----

  function Run(cfg: Config, ops: seq<Op>): Sys {
    if ops == [] then Sys([], 0, [], []) else Next(cfg, Run(cfg, ops[..|ops| - 1]), ops[|ops| - 1])
  }

  /** The entries in order of their first acceptance. */
  function First(log: seq<Entry>): seq<Entry> {
    if log == [] then []
    else
      var before, e := First(log[..|log| - 1]), log[|log| - 1];
      if e in before then before else before + [e]
  }

  ghost predicate Increasing(entries: seq<Entry>) {
    forall i, j :: 0 <= i < j < |entries| ==> entries[i].id < entries[j].id
  }

  /** The saved entries split in order: the first m are synced or deleted, the rest are pending;
      the controller took the first k, at least m, each first in its turn. */
  ghost predicate Split(s: Sys, m: nat, k: nat) {
    && m <= k <= |s.saved|
    && Pending(s.rows) == s.saved[m..]
    && (forall r <- s.rows :: r.entry in if r.synced then s.saved[..m] else s.saved[m..])
    && First(s.accepted) == s.saved[..k]
  }

  ghost predicate Numbered(s: Sys) {
    Increasing(s.saved) && forall e <- s.saved :: e.id <= s.lastId
  }

  lemma InsertKeeps(s: Sys, m: nat, k: nat, save: Save)
    requires Numbered(s) && Split(s, m, k)
    ensures Numbered(Inserted(s, save)) && Split(Inserted(s, save), m, k) && s.saved <= Inserted(s, save).saved
  {
    hide First, Pending, Stored, Increasing;
    if save.ok {
      var e := Stored(s, save.alert);
      StoredIsNew(s, save.alert);
      PendingInsert(s.rows, e, save.now);
      var saved := s.saved + [e];
      assert saved[m..] == s.saved[m..] + [e] && saved[..m] == s.saved[..m] && saved[..k] == s.saved[..k];
    }
  }

  lemma StoredIsNew(s: Sys, a: Alert)
    requires Numbered(s)
    ensures Increasing(s.saved + [Stored(s, a)]) && Stored(s, a).id == s.lastId + 1
  {
    assert forall i :: 0 <= i < |s.saved| ==> s.saved[i] in s.saved;
  }

  lemma PendingInsert(rows: seq<Row>, e: Entry, now: int)
    ensures Pending(rows + [Row(e, false, now)])
         == Pending(rows) + [e]
  {
    assert (rows + [Row(e, false, now)])[..|rows|] == rows;
  }

  lemma {:induction false} InsertAllKeeps(s: Sys, m: nat, k: nat, saves: seq<Save>)
    requires Numbered(s) && Split(s, m, k)
    ensures var t := InsertedAll(s, saves);
            Numbered(t) && Split(t, m, k) && s.saved <= t.saved && t.accepted == s.accepted
  {
    hide Numbered, Split;
    if saves != [] {
      InsertAllKeeps(s, m, k, saves[..|saves| - 1]);
      InsertKeeps(InsertedAll(s, saves[..|saves| - 1]), m, k, saves[|saves| - 1]);
    }
  }

  // marking

  function Outside(entries: seq<Entry>, ids: seq<nat>): seq<Entry> {
    if entries == [] then []
    else
      var last := entries[|entries| - 1];
      Outside(entries[..|entries| - 1], ids) + (if last.id in ids then [] else [last])
  }

  lemma {:induction false} OutsideConcat(a: seq<Entry>, b: seq<Entry>, ids: seq<nat>)
    ensures Outside(a + b, ids) == Outside(a, ids) + Outside(b, ids)
  {
    if b == [] {
      assert a + b == a;
    } else {
      assert (a + b)[..|a + b| - 1] == a + b[..|b| - 1];
      OutsideConcat(a, b[..|b| - 1], ids);
    }
  }

  lemma {:induction false} OutsideAllOrNone(entries: seq<Entry>, ids: seq<nat>)
    ensures (forall e <- entries :: e.id in ids) ==> Outside(entries, ids) == []
    ensures (forall e <- entries :: e.id !in ids) ==> Outside(entries, ids) == entries
  {
    if entries != [] { OutsideAllOrNone(entries[..|entries| - 1], ids); }
  }

  lemma {:induction false} PendingMarked(rows: seq<Row>, ids: seq<nat>)
    ensures Pending(Marked(rows, ids))
         == Outside(Pending(rows), ids)
  {
    if rows != [] {
      var init, last := rows[..|rows| - 1], rows[|rows| - 1];
      PendingMarked(init, ids);
      assert Marked(rows, ids)[..|rows| - 1] == Marked(init, ids);
      var tail := if last.synced then [] else [last.entry];
      OutsideConcat(Pending(init), tail, ids);
      OutsideAllOrNone(tail, ids);
    }
  }

  lemma IdsAre(entries: seq<Entry>)
    ensures forall id :: id in Ids(entries) <==> exists e <- entries :: e.id == id
  {
    forall e | e in entries ensures e.id in Ids(entries) {
      var i :| 0 <= i < |entries| && entries[i] == e;
      assert Ids(entries)[i] == e.id;
    }
    forall id | id in Ids(entries) ensures exists e <- entries :: e.id == id {
      var i :| 0 <= i < |Ids(entries)| && Ids(entries)[i] == id;
      assert entries[i] in entries;
    }
  }

  /** Marking the first n pending entries leaves the others pending. */
  lemma PendingAfterMark(rows: seq<Row>, p: seq<Entry>, n: nat)
    requires Increasing(p) && Pending(rows) == p && n <= |p|
    ensures Pending(Marked(rows, Ids(p[..n])))
         == p[n..]
  {
    hide *;
    var ids := Ids(p[..n]);
    assert p[0..0 + n] == p[..n] && p[0 + n..] == p[n..] && p == p[..n] + p[n..];
    PendingMarked(rows, ids);
    OutsideConcat(p[..n], p[n..], ids);
    IdsAre(p[..n]);
    OutsideAllOrNone(p[..n], ids);
    BatchApart(p, 0, n);
    OutsideAllOrNone(p[n..], ids);
  }

  lemma MarkKeeps(s: Sys, m: nat, k: nat, n: nat)
    requires Numbered(s) && Split(s, m, k) && m + n <= k
    ensures Split(s.(rows := Marked(s.rows, Ids(s.saved[m..m + n]))), m + n, k)
  {
    hide First, Pending, Marked, Increasing, Ids;
    SuffixIncreasing(s.saved, m);
    assert s.saved[m..][..n] == s.saved[m..m + n] && s.saved[m..][n..] == s.saved[m + n..];
    PendingAfterMark(s.rows, s.saved[m..], n);
    MarkedRows(s, m, n);
  }

  lemma BatchApart(saved: seq<Entry>, m: nat, n: nat)
    requires Increasing(saved) && m + n <= |saved|
    ensures forall e <- saved :: e.id in Ids(saved[m..m + n]) <==> e in saved[m..m + n]
    ensures forall e <- saved[m + n..] :: e.id !in Ids(saved[m..m + n])
  {
    var batch := saved[m..m + n];
    IdsAre(batch);
    forall e, b | e in saved && b in batch && e.id == b.id ensures e == b {
      var i :| 0 <= i < |saved| && saved[i] == e;
      var j :| 0 <= j < |batch| && batch[j] == b;
      assert saved[m + j] == b;
    }
    forall e, b | e in saved[m + n..] && b in batch ensures e.id != b.id {
      var i :| 0 <= i < |saved[m + n..]| && saved[m + n..][i] == e;
      var j :| 0 <= j < |batch| && batch[j] == b;
      assert saved[m + n + i] == e && saved[m + j] == b;
    }
  }

  lemma MarkedRows(s: Sys, m: nat, n: nat)
    requires Increasing(s.saved) && m + n <= |s.saved|
    requires forall r <- s.rows :: r.entry in if r.synced then s.saved[..m] else s.saved[m..]
    ensures forall r <- Marked(s.rows, Ids(s.saved[m..m + n])) ::
              r.entry in if r.synced then s.saved[..m + n] else s.saved[m + n..]
  {
    hide Increasing, Ids;
    var ids := Ids(s.saved[m..m + n]);
    var marked := Marked(s.rows, ids);
    forall r | r in marked ensures r.entry in if r.synced then s.saved[..m + n] else s.saved[m + n..] {
      var i :| 0 <= i < |marked| && marked[i] == r;
      MarkedRow(s.saved, s.rows[i], m, n);
    }
  }

  lemma MarkedRow(saved: seq<Entry>, r: Row, m: nat, n: nat)
    requires Increasing(saved) && m + n <= |saved|
    requires r.entry in if r.synced then saved[..m] else saved[m..]
    ensures r.entry in if r.synced || r.entry.id in Ids(saved[m..m + n]) then saved[..m + n] else saved[m + n..]
  {
    hide Increasing, Ids;
    BatchApart(saved, m, n);
    assert saved == saved[..m] + saved[m..];
    assert saved[m..] == saved[m..m + n] + saved[m + n..] && saved[..m + n] == saved[..m] + saved[m..m + n];
  }

  // accepting

  /** A batch that starts at or before the first entry not yet taken adds exactly its new part. */
  lemma {:induction false} AcceptKeeps(saved: seq<Entry>, log: seq<Entry>, m: nat, k: nat, n: nat)
    requires Increasing(saved) && m <= k <= |saved| && m + n <= |saved| && First(log) == saved[..k]
    ensures First(log + saved[m..m + n])
         == saved[..if k < m + n then m + n else k]
  {
    hide First, Increasing;
    if n == 0 {
      assert log + saved[m..m] == log;
    } else {
      AcceptKeeps(saved, log, m, k, n - 1);
      var e := saved[m + n - 1];
      assert log + saved[m..m + n] == (log + saved[m..m + n - 1]) + [e];
      FirstNext(log + saved[m..m + n - 1], e);
      NewestIsNew(saved, if k < m + n - 1 then m + n - 1 else k, m + n - 1);
      if k < m + n { assert saved[..m + n - 1] + [e] == saved[..m + n]; }
    }
  }

  lemma FirstNext(log: seq<Entry>, e: Entry)
    ensures First(log + [e]) == if e in First(log) then First(log) else First(log) + [e]
  {
    assert (log + [e])[..|log|] == log;
  }

  lemma NewestIsNew(saved: seq<Entry>, n: nat, i: nat)
    requires Increasing(saved) && n <= |saved| && i < |saved|
    ensures saved[i] in saved[..n] <==> i < n
  {
    if i < n {
      assert saved[..n][i] == saved[i];
    } else {
      assert forall j :: 0 <= j < n ==> saved[..n][j].id < saved[i].id;
    }
  }

  // pruning

  lemma {:induction false} KeptKeeps(rows: seq<Row>, maxAge: int, now: int)
    ensures Pending(Kept(rows, maxAge, now, false))
         == Pending(rows)
    ensures forall r <- Kept(rows, maxAge, now, false) :: r in rows
  {
    if rows != [] {
      var init, last := rows[..|rows| - 1], rows[|rows| - 1];
      KeptKeeps(init, maxAge, now);
      PendingConcat(Kept(init, maxAge, now, false), if Doomed(last, maxAge, now, false) then [] else [last]);
      assert Pending([last]) == if last.synced then [] else [last.entry] by { assert [last][..0] == []; }
    }
  }

  // runs

  lemma SyncKeeps(s: Sys, limit: int, op: Op, m: nat, k: nat) returns (m': nat, k': nat)
    requires op.Sync? && Numbered(s) && Split(s, m, k)
    ensures Numbered(Synced(s, limit, op)) && Split(Synced(s, limit, op), m', k')
  {
    hide Pending, First, Increasing, InsertedAll, Marked;
    m', k' := m, k;
    var batch := if op.loads then Limited(Pending(s.rows), limit) else [];
    if batch != [] {
      var n := |batch|;
      InsertAllKeeps(s, m, k, op.meanwhile);
      var t := InsertedAll(s, op.meanwhile);
      assert batch == t.saved[m..m + n];
      if Taken(op.reply) {
        AcceptKeeps(t.saved, t.accepted, m, k, n);
        k' := if k < m + n then m + n else k;
        t := t.(accepted := t.accepted + batch);
        assert Split(t, m, k');
        if op.reply == Accepted && Commits(Ids(batch), op.markFailsAt) {
          MarkKeeps(t, m, k', n);
          m' := m + n;
        }
      }
    }
  }

  lemma {:induction false} RunSplits(cfg: Config, ops: seq<Op>) returns (m: nat, k: nat)
    requires cfg.connected
    ensures Numbered(Run(cfg, ops)) && Split(Run(cfg, ops), m, k)
  {
    if ops == [] {
      m, k := 0, 0;
    } else {
      hide Pending, First, Kept, Synced;
      var op := ops[|ops| - 1];
      var s := Run(cfg, ops[..|ops| - 1]);
      m, k := RunSplits(cfg, ops[..|ops| - 1]);
      match op
      case SaveAlert(save) => InsertKeeps(s, m, k, save);
      case Sync(_, _, _, _) => m, k := SyncKeeps(s, cfg.batchSize, op, m, k);
      case Prune(now, _) => KeptKeeps(s.rows, DAY, now);
    }
  }

  // ---- the theorems ----

  /** First acceptances follow the ids without a gap: in whatever way requests, answers and
      markings fail and alerts are saved meanwhile, the controller has taken exactly the oldest
      saved entries, each first in its turn. */
  lemma FirstAcceptancesInOrder(cfg: Config, ops: seq<Op>)
    requires cfg.connected
    ensures var s := Run(cfg, ops);
            Increasing(s.saved) && First(s.accepted) <= s.saved
  {
    var m, k := RunSplits(cfg, ops);
  }

  /** Nothing saved is lost: an entry is in the table, or the controller took it. */
  lemma DeletedOnlyAfterAcceptance(cfg: Config, ops: seq<Op>, e: Entry)
    requires cfg.connected && e in Run(cfg, ops).saved
    ensures (exists r <- Run(cfg, ops).rows :: r.entry == e) || e in Run(cfg, ops).accepted
    ensures forall r <- Run(cfg, ops).rows :: r.entry == e && r.synced ==> e in Run(cfg, ops).accepted
  {
    hide Run, Pending, First;
    var s := Run(cfg, ops);
    var m, k := RunSplits(cfg, ops);
    FirstAre(s.accepted);
    PendingAre(s.rows);
    assert s.saved == s.saved[..m] + s.saved[m..] && s.saved[..m] <= s.saved[..k];
    assert forall x <- s.saved[..m] :: x in s.saved[..k];
  }

  lemma {:induction false} FirstAre(log: seq<Entry>)
    ensures forall e :: e in First(log) <==> e in log
  {
    if log != [] { FirstAre(log[..|log| - 1]); }
  }

  lemma {:induction false} PendingAre(rows: seq<Row>)
    ensures forall e :: e in Pending(rows) <==> exists r <- rows :: !r.synced && r.entry == e
  {
    if rows != [] {
      var init, last := rows[..|rows| - 1], rows[|rows| - 1];
      assert rows == init + [last];
      PendingAre(init);
    }
  }

  /** Every synced id is below every unsynced one. */
  lemma SyncedBelowUnsynced(cfg: Config, ops: seq<Op>, a: Row, b: Row)
    requires cfg.connected && a in Run(cfg, ops).rows && b in Run(cfg, ops).rows && a.synced && !b.synced
    ensures a.entry.id < b.entry.id
  {
    var s := Run(cfg, ops);
    var m, k := RunSplits(cfg, ops);
    hide Run, Pending, First;
    var i :| 0 <= i < m && s.saved[..m][i] == a.entry;
    var j :| 0 <= j < |s.saved| - m && s.saved[m..][j] == b.entry;
  }

  function Rounds(cfg: Config, s: Sys, n: nat): Sys {
    if n == 0 then s else Next(cfg, Rounds(cfg, s, n - 1), Sync(true, Accepted, [], -1))
  }

  /** One successful round takes the oldest batch. */
  lemma RoundTakesBatch(cfg: Config, s: Sys)
    requires cfg.connected && cfg.batchSize > 0 && Increasing(Pending(s.rows))
    ensures var p, t := Pending(s.rows), Next(cfg, s, Sync(true, Accepted, [], -1));
            && Pending(t.rows) == p[|Limited(p, cfg.batchSize)|..]
            && t.accepted == s.accepted + Limited(p, cfg.batchSize)
  {
    hide Pending, Marked, Increasing, Ids;
    var p := Pending(s.rows);
    var n := |Limited(p, cfg.batchSize)|;
    assert InsertedAll(s, []) == s;
    PendingAfterMark(s.rows, p, n);
    assert p[..n] == Limited(p, cfg.batchSize);
    if n == 0 { assert p == []; }
  }

  function Min(a: nat, b: nat): nat { if a < b then a else b }

  function Times(n: nat, batch: nat): nat { if n == 0 then 0 else Times(n - 1, batch) + batch }

  lemma {:induction false} TimesIsProduct(n: nat, batch: nat)
    ensures Times(n, batch) == n * batch
  {
    if n > 0 {
      TimesIsProduct(n - 1, batch);
      assert n * batch == (n - 1) * batch + batch;
    }
  }

  /** The first n entries pending in s have been sent since, in order; the others still are. */
  ghost predicate Drained(s: Sys, r: Sys, n: nat) {
    var p := Pending(s.rows);
    n <= |p| && Pending(r.rows) == p[n..] && r.accepted == s.accepted + p[..n]
  }

  lemma DrainStep(cfg: Config, s: Sys, r: Sys, n: nat)
    requires cfg.connected && cfg.batchSize > 0 && Increasing(Pending(s.rows)) && Drained(s, r, n)
    ensures Drained(s, Next(cfg, r, Sync(true, Accepted, [], -1)), Min(n + cfg.batchSize, |Pending(s.rows)|))
  {
    hide Pending, Next, Increasing, Limited;
    var p := Pending(s.rows);
    SuffixIncreasing(p, n);
    RoundTakesBatch(cfg, r);
    NextBatch(p, n, cfg.batchSize);
  }

  lemma {:induction false} RoundsDrain(cfg: Config, s: Sys, n: nat)
    requires cfg.connected && cfg.batchSize > 0 && Increasing(Pending(s.rows))
    ensures Drained(s, Rounds(cfg, s, n), Min(Times(n, cfg.batchSize), |Pending(s.rows)|))
  {
    hide *;
    if n == 0 {
      NoRounds(cfg, s);
    } else {
      RoundsDrain(cfg, s, n - 1);
      OneMoreRound(cfg, s, n, |Pending(s.rows)|);
      DrainStep(cfg, s, Rounds(cfg, s, n - 1), Min(Times(n - 1, cfg.batchSize), |Pending(s.rows)|));
    }
  }

  lemma NoRounds(cfg: Config, s: Sys)
    requires cfg.batchSize > 0
    ensures Drained(s, Rounds(cfg, s, 0), Min(Times(0, cfg.batchSize), |Pending(s.rows)|))
  {
    hide Pending;
    assert Pending(s.rows)[0..] == Pending(s.rows);
  }

  lemma OneMoreRound(cfg: Config, s: Sys, n: nat, total: nat)
    requires cfg.batchSize > 0 && n > 0
    ensures Rounds(cfg, s, n) == Next(cfg, Rounds(cfg, s, n - 1), Sync(true, Accepted, [], -1))
    ensures Min(Times(n, cfg.batchSize), total)
         == Min(Min(Times(n - 1, cfg.batchSize), total) + cfg.batchSize, total)
  {
    hide Next;
  }

  lemma NextBatch(p: seq<Entry>, before: nat, batch: nat)
    requires batch > 0 && before <= |p|
    ensures var done := Min(before + batch, |p|);
            var taken := Limited(p[before..], batch);
            p[before..][|taken|..] == p[done..] && p[..before] + taken == p[..done]
  {
  }

  lemma SuffixIncreasing(p: seq<Entry>, n: nat)
    requires Increasing(p) && n <= |p|
    ensures Increasing(p[n..])
  {
  }

  lemma Ceiling(total: nat, batch: nat, n: nat)
    requires batch > 0
    ensures n * batch >= total <==> n >= (total + batch - 1) / batch
  {
    var c := (total + batch - 1) / batch;
    CeilingBounds(total, batch);
    if n >= c { Ordered(c, n, batch); } else { Ordered(n, c - 1, batch); }
    assert (c - 1) * batch == c * batch - batch;
  }

  lemma CeilingBounds(total: nat, batch: nat)
    requires batch > 0
    ensures var c := (total + batch - 1) / batch;
            c * batch >= total && c * batch < total + batch
  {
  }

  lemma Ordered(a: int, b: int, batch: nat)
    requires a <= b
    ensures a * batch <= b * batch
  {
  }

  /** From any reachable state the pending entries are drained after ceil(pending / batch size)
      successful rounds, and no earlier; each was sent once in those rounds, in order. */
  lemma DrainsInCeilRounds(cfg: Config, ops: seq<Op>, n: nat)
    requires cfg.connected && cfg.batchSize > 0
    ensures var s := Run(cfg, ops);
            var p := Pending(s.rows);
            && (Pending(Rounds(cfg, s, n).rows) == [] <==> n >= (|p| + cfg.batchSize - 1) / cfg.batchSize)
            && (Pending(Rounds(cfg, s, n).rows) == [] ==> Rounds(cfg, s, n).accepted == s.accepted + p)
  {
    hide Run, Pending, Rounds, First, Times;
    var s := Run(cfg, ops);
    var p := Pending(s.rows);
    var m, k := RunSplits(cfg, ops);
    SuffixIncreasing(s.saved, m);
    RoundsDrain(cfg, s, n);
    TimesIsProduct(n, cfg.batchSize);
    Ceiling(|p|, cfg.batchSize, n);
    assert p[..|p|] == p;
  }

  // ---- what is saved, and what is deleted ----

  /** The saves that worked, in order. */
  function Worked(saves: seq<Save>): seq<Save> {
    if saves == [] then []
    else Worked(saves[..|saves| - 1]) + (if saves[|saves| - 1].ok then [saves[|saves| - 1]] else [])
  }

  /** The saves of a run: alone, or while a batch was on its way. */
  function SavesOf(cfg: Config, ops: seq<Op>): seq<Save> {
    if ops == [] then []
    else
      var before := SavesOf(cfg, ops[..|ops| - 1]);
      match ops[|ops| - 1]
      case SaveAlert(save) => before + [save]
      case Sync(loads, _, meanwhile, _) =>
        var sends := cfg.connected && loads && Limited(Pending(Run(cfg, ops[..|ops| - 1]).rows), cfg.batchSize) != [];
        before + if sends then meanwhile else []
      case Prune(_, _) => before
  }

  /** The entry holds the alert of the save, with its time cut to whole seconds. */
  ghost predicate Holds(e: Entry, save: Save) {
    && e.alert.(ts := save.alert.ts) == save.alert
    && e.alert.ts % 1_000_000_000 == 0 && e.alert.ts <= save.alert.ts < e.alert.ts + 1_000_000_000
  }

  /** The entries are the saves, numbered from 1. */
  ghost predicate Records(saved: seq<Entry>, saves: seq<Save>) {
    |saved| == |saves| && forall i :: 0 <= i < |saves| ==> saved[i].id == i + 1 && Holds(saved[i], saves[i])
  }

  /** Every row is of a save, and of its time. */
  ghost predicate RowsRecord(rows: seq<Row>, saved: seq<Entry>, saves: seq<Save>)
    requires |saved| == |saves|
  {
    forall r <- rows :: exists i :: 0 <= i < |saved| && saved[i] == r.entry && r.createdAt == saves[i].now
  }

  ghost predicate Recorded(s: Sys, saves: seq<Save>) {
    s.lastId == |s.saved| && Records(s.saved, saves) && RowsRecord(s.rows, s.saved, saves)
  }

  lemma InsertRecords(s: Sys, saves: seq<Save>, save: Save)
    requires Recorded(s, saves)
    ensures Recorded(Inserted(s, save), saves + if save.ok then [save] else [])
  {
    if save.ok {
      var t, all := Inserted(s, save), saves + [save];
      assert Holds(t.saved[|s.saved|], save);
      forall r | r in t.rows
        ensures exists i :: 0 <= i < |t.saved| && t.saved[i] == r.entry && r.createdAt == all[i].now
      {
        if r in s.rows {
          var i :| 0 <= i < |s.saved| && s.saved[i] == r.entry && r.createdAt == saves[i].now;
          assert t.saved[i] == r.entry && all[i] == saves[i];
        } else {
          assert t.saved[|s.saved|] == r.entry && all[|s.saved|] == save;
        }
      }
    } else {
      assert saves + [] == saves;
    }
  }

  lemma {:induction false} InsertAllRecords(s: Sys, saves: seq<Save>, more: seq<Save>)
    requires Recorded(s, saves)
    ensures Recorded(InsertedAll(s, more), saves + Worked(more))
  {
    hide Recorded, Inserted;
    if more == [] {
      assert saves + Worked(more) == saves;
    } else {
      var init, last := more[..|more| - 1], more[|more| - 1];
      InsertAllRecords(s, saves, init);
      InsertRecords(InsertedAll(s, init), saves + Worked(init), last);
      assert saves + Worked(more) == saves + Worked(init) + if last.ok then [last] else [];
    }
  }

  lemma {:induction false} WorkedAppend(a: seq<Save>, b: seq<Save>)
    ensures Worked(a + b) == Worked(a) + Worked(b)
  {
    if b == [] {
      assert a + b == a;
    } else {
      assert (a + b)[..|a + b| - 1] == a + b[..|b| - 1];
      WorkedAppend(a, b[..|b| - 1]);
    }
  }

  /** Rows that are among earlier ones, but for the mark, are of the same saves. */
  lemma RowsStillRecord(s: Sys, t: Sys, saves: seq<Save>)
    requires Recorded(s, saves) && t.saved == s.saved && t.lastId == s.lastId
    requires forall r <- t.rows :: exists x <- s.rows :: x.entry == r.entry && x.createdAt == r.createdAt
    ensures Recorded(t, saves)
  {
  }

  lemma MarkedAre(rows: seq<Row>, ids: seq<nat>)
    ensures forall r <- Marked(rows, ids) :: exists x <- rows :: x.entry == r.entry && x.createdAt == r.createdAt
  {
    forall r | r in Marked(rows, ids) ensures exists x <- rows :: x.entry == r.entry && x.createdAt == r.createdAt {
      var i :| 0 <= i < |rows| && Marked(rows, ids)[i] == r;
      assert rows[i] in rows && rows[i].entry == r.entry && rows[i].createdAt == r.createdAt;
    }
  }

  /** Pruning in either mode deletes exactly the rows that are old enough, every copy of them, and unless
      all may go only synced ones. */
  lemma {:induction false} KeptExact(rows: seq<Row>, maxAge: int, now: int, all: bool)
    ensures forall r :: multiset(Kept(rows, maxAge, now, all))[r] ==
              if (all || r.synced) && (maxAge == 0 || now - r.createdAt >= maxAge) then 0 else multiset(rows)[r]
  {
    if rows != [] {
      var init, last := rows[..|rows| - 1], rows[|rows| - 1];
      KeptExact(init, maxAge, now, all);
      assert rows == init + [last];
    }
  }

  lemma KeptAre(rows: seq<Row>, maxAge: int, now: int, all: bool)
    ensures forall r <- Kept(rows, maxAge, now, all) :: r in rows
  {
    var kept := Kept(rows, maxAge, now, all);
    KeptExact(rows, maxAge, now, all);
    forall r | r in kept ensures r in rows { assert r in multiset(kept); }
  }

  /** Over every run, in either mode: what was ever inserted are the alerts of the saves that worked, in
      order and numbered from 1, each with its time cut to whole seconds; and every row is of one of
      them and of the time at which it was saved. */
  lemma {:induction false} SavedAreTheAlerts(cfg: Config, ops: seq<Op>)
    ensures Recorded(Run(cfg, ops), Worked(SavesOf(cfg, ops)))
  {
    if ops != [] {
      hide Recorded, Pending, Inserted, InsertedAll, Marked, Kept, Worked;
      var init, op := ops[..|ops| - 1], ops[|ops| - 1];
      var s, saves := Run(cfg, init), SavesOf(cfg, init);
      SavedAreTheAlerts(cfg, init);
      match op
      case SaveAlert(save) =>
        InsertRecords(s, Worked(saves), save);
        WorkedAppend(saves, [save]);
        WorkedOne(save);
      case Sync(_, _, meanwhile, _) => SyncRecords(cfg, s, saves, op);
      case Prune(now, _) =>
        KeptAre(s.rows, DAY, now, false);
        KeptAre(s.rows, cfg.retention, now, true);
        RowsStillRecord(s, Next(cfg, s, op), Worked(saves));
    } else {
      assert Recorded(Run(cfg, []), []);
    }
  }

  lemma WorkedOne(save: Save)
    ensures Worked([save]) == if save.ok then [save] else []
  {
    assert [save][..0] == [];
  }

  lemma SyncRecords(cfg: Config, s: Sys, saves: seq<Save>, op: Op)
    requires op.Sync? && Recorded(s, Worked(saves))
    ensures var sends := cfg.connected && op.loads && Limited(Pending(s.rows), cfg.batchSize) != [];
            Recorded(Next(cfg, s, op), Worked(saves + if sends then op.meanwhile else []))
  {
    hide Recorded, Pending, Inserted, InsertedAll, Marked, Worked;
    var batch := Limited(Pending(s.rows), cfg.batchSize);
    if cfg.connected && op.loads && batch != [] {
      var t, more := InsertedAll(s, op.meanwhile), Worked(saves) + Worked(op.meanwhile);
      InsertAllRecords(s, Worked(saves), op.meanwhile);
      WorkedAppend(saves, op.meanwhile);
      MarkedAre(t.rows, Ids(batch));
      RowsStillRecord(t, Next(cfg, s, op), more);
    } else {
      assert saves + [] == saves;
    }
  }

  /** One pruning of the forwarder: connected, exactly the synced rows that are a day old or older go;
      alone, all that reached the retention. */
  lemma PrunesExactly(cfg: Config, s: Sys, now: int, r: Row)
    ensures var after := Next(cfg, s, Prune(now, true));
            && after == s.(rows := after.rows)
            && multiset(after.rows)[r] ==
               if cfg.connected && r.synced && now - r.createdAt >= 86_400 then 0
               else if !cfg.connected && (cfg.retention == 0 || now - r.createdAt >= cfg.retention) then 0
               else multiset(s.rows)[r]
  {
    hide Kept;
    KeptExact(s.rows, DAY, now, false);
    KeptExact(s.rows, cfg.retention, now, true);
  }

  /** Nothing is marked unless the answer was an acceptance. */
  lemma MarksOnlyAccepted(cfg: Config, s: Sys, op: Op, r: Row)
    requires op.Sync? && op.reply != Accepted && r in Next(cfg, s, op).rows && r.synced
    ensures r in s.rows
  {
    hide Pending;
    InsertedUnsynced(s, op.meanwhile, r);
  }

  lemma {:induction false} InsertedUnsynced(s: Sys, saves: seq<Save>, r: Row)
    ensures r in InsertedAll(s, saves).rows && r.synced ==> r in s.rows
  {
    if saves != [] { InsertedUnsynced(s, saves[..|saves| - 1], r); }
  }
}
