/** The mail-log parser's queue correlation, on lines already classified: two maps from
    queue IDs to the SASL account that authenticated, and a counter that prunes them. */
module MailLog {
  import opened Events
  import opened TargetText
  import opened Time

  const QUEUE_TTL: int := 600 * SECOND
  const SENDER_TTL: int := 1800 * SECOND
  const PRUNE_EVERY: nat := 500

  datatype Status = Sent | Bounced | Deferred

  /** What the message of a line says. */
  datatype Msg =
    | SaslFail(ip: string, reason: string)
    | AuthOk(qid: string, ip: string, account: string)
    | Rcpt(qid: string, ip: string)
    | Qmgr(qid: string, from: string, size: string, nrcpt: string)
    | Delivery(qid: string, to: string, relay: string, status: Status, queuedAs: Option<string>)
    | Other

  datatype Line = Line(ts: Nanos, process: string, raw: string, msg: Msg)

  /** A queue ID bound to an account, with the time of the authentication. */
  datatype Binding = Binding(account: string, ts: Nanos)

  datatype State = State(authed: map<string, Binding>, senders: map<string, Binding>, calls: nat)

  const EMPTY: State := State(map[], map[], 0)

  // ---- specification ----

  function Since(m: map<string, Binding>, cutoff: Nanos): map<string, Binding> {
    map q | q in m && m[q].ts >= cutoff :: m[q]
  }

  /** Every 500th qmgr or delivery line drops what is older than the two TTLs. */
  function Tick(s: State, now: Nanos): State {
    if s.calls + 1 >= PRUNE_EVERY
    then State(Since(s.authed, now - QUEUE_TTL), Since(s.senders, now - SENDER_TTL), 0)
    else s.(calls := s.calls + 1)
  }

  function EventFor(line: Line, kind: Kind, qid: string, ip: string, account: string,
                    extra: map<string, string>): Event {
    Event(kind, line.ts, line.process, qid, account, ExtractDomain(account), ip, extra, line.raw)
  }

  const USERNAME_KEY := "sasl_username="

  predicate EndsName(c: char) { c in {' ', ',', ';'} }

  /** strings.IndexAny(s, " ,;"), or the length of s. */
  function NameLength(s: string): (n: nat)
    ensures n <= |s|
  {
    if s == "" || EndsName(s[0]) then 0 else 1 + NameLength(s[1..])
  }

  /** The user name that newer versions of Postfix add to the reason of a failure; "" without one. */
  function SaslUsername(reason: string): string {
    match Find(reason, USERNAME_KEY)
    case None => ""
    case Some(i) =>
      var rest := reason[i + |USERNAME_KEY|..];
      rest[..NameLength(rest)]
  }

  function Chain(senders: map<string, Binding>, m: Msg): map<string, Binding>
    requires m.Delivery?
  {
    if m.status == Sent && m.qid in senders && m.queuedAs.Some? && m.queuedAs.value != m.qid
    then senders[m.queuedAs.value := senders[m.qid]]
    else senders
  }

  function DeliveryKind(status: Status): Kind {
    match status
    case Sent => MessageSent
    case Bounced => MessageBounce
    case Deferred => MessageDeferred
  }

  function NextState(s: State, line: Line): State {
    match line.msg
    case AuthOk(q, _, account) => s.(authed := s.authed[q := Binding(account, line.ts)])
    case Qmgr(q, _, _, _) =>
      var t := Tick(s.(authed := s.authed - {q}), line.ts);
      if q in s.authed then t.(senders := t.senders[q := s.authed[q]]) else t
    case Delivery(_, _, _, _, _) =>
      var t := Tick(s, line.ts);
      t.(senders := Chain(t.senders, line.msg))
    case _ => s
  }

  function Emitted(s: State, line: Line): Option<Event> {
    match line.msg
    case SaslFail(ip, reason) =>
      Some(EventFor(line, AuthFailed, "", ip, SaslUsername(reason),
                    if reason != "" then map["reason" := reason] else map[]))
    case AuthOk(q, ip, account) => Some(EventFor(line, AuthSuccess, q, ip, account, map[]))
    case Rcpt(q, ip) =>
      if q in s.authed then Some(EventFor(line, RecipientAdded, q, ip, s.authed[q].account, map[])) else None
    case Qmgr(q, from, size, nrcpt) =>
      if q in s.authed
      then Some(EventFor(line, QueueAccepted, q, "", s.authed[q].account,
                         map["size" := size, "nrcpt" := nrcpt, "from" := from]))
      else None
    case Delivery(q, to, relay, status, _) =>
      var t := Tick(s, line.ts);
      Some(EventFor(line, DeliveryKind(status), q, "", if q in t.senders then t.senders[q].account else "",
                    map["to" := to, "relay" := relay]))
    case Other => None
  }

  function Run(lines: seq<Line>): State { RunFrom(EMPTY, lines) }

  function RunFrom(s: State, lines: seq<Line>): State {
    if lines == [] then s else NextState(RunFrom(s, lines[..|lines| - 1]), lines[|lines| - 1])
  }

  /** The event of line i of a log. */
  function EventAt(lines: seq<Line>, i: nat): Option<Event>
    requires i < |lines|
  {
    Emitted(Run(lines[..i]), lines[i])
  }

  // ---- the parser ----

  class Parser {
    var authedQueues: map<string, Binding>
    var queueSenders: map<string, Binding>
    var queueCallCnt: nat

    ghost function View(): State reads this { State(authedQueues, queueSenders, queueCallCnt) }

    constructor ()
      ensures View() == EMPTY
    {
      authedQueues, queueSenders, queueCallCnt := map[], map[], 0;
    }

    method ParseLine(line: Line) returns (ev: Option<Event>)
      modifies this
      ensures View() == NextState(old(View()), line) && ev == Emitted(old(View()), line)
    {
      match line.msg {
        case SaslFail(_, _) => ev := ParseSmtpd(line);
        case AuthOk(_, _, _) => ev := ParseSmtpd(line);
        case Rcpt(_, _) => ev := ParseSmtpd(line);
        case Qmgr(_, _, _, _) => ev := ParseQmgr(line);
        case Delivery(_, _, _, _, _) => ev := ParseDelivery(line);
        case Other => ev := None;
      }
    }

    method ParseSmtpd(line: Line) returns (ev: Option<Event>)
      requires line.msg.SaslFail? || line.msg.AuthOk? || line.msg.Rcpt?
      modifies this
      ensures View() == NextState(old(View()), line) && ev == Emitted(old(View()), line)
    {
      match line.msg {
        case SaslFail(ip, reason) =>
          var extra: map<string, string> := map[];
          var account := "";
          if reason != "" {
            extra := extra["reason" := reason];
            account := Username(reason);
          }
          return Some(EventFor(line, AuthFailed, "", ip, account, extra));
        case AuthOk(q, ip, account) =>
          authedQueues := authedQueues[q := Binding(account, line.ts)];
          return Some(EventFor(line, AuthSuccess, q, ip, account, map[]));
        case Rcpt(q, ip) =>
          if q !in authedQueues { return None; }
          return Some(EventFor(line, RecipientAdded, q, ip, authedQueues[q].account, map[]));
      }
    }

    /** The loop of strings.IndexAny over what stands behind the key. */
    method Username(reason: string) returns (name: string)
      ensures name == SaslUsername(reason)
    {
      var i := Find(reason, USERNAME_KEY);
      if i.None? { return ""; }
      var rest := reason[i.value + |USERNAME_KEY|..];
      var n := 0;
      while n < |rest| && !EndsName(rest[n])
        invariant n <= |rest| && n + NameLength(rest[n..]) == NameLength(rest)
      {
        assert rest[n..][1..] == rest[n + 1..];
        n := n + 1;
      }
      name := rest[..n];
    }

    method ParseQmgr(line: Line) returns (ev: Option<Event>)
      requires line.msg.Qmgr?
      modifies this
      ensures View() == NextState(old(View()), line) && ev == Emitted(old(View()), line)
    {
      var q := line.msg.qid;
      var auth := if q in authedQueues then Some(authedQueues[q]) else None;
      if auth.Some? { authedQueues := authedQueues - {q}; }
      assert View() == old(View()).(authed := old(View()).authed - {q});
      CountCall(line.ts);
      if auth.None? { return None; }
      queueSenders := queueSenders[q := auth.value];
      ev := Some(EventFor(line, QueueAccepted, q, "", auth.value.account,
                          map["size" := line.msg.size, "nrcpt" := line.msg.nrcpt, "from" := line.msg.from]));
    }

    method ParseDelivery(line: Line) returns (ev: Option<Event>)
      requires line.msg.Delivery?
      modifies this
      ensures View() == NextState(old(View()), line) && ev == Emitted(old(View()), line)
    {
      var m := line.msg;
      CountCall(line.ts);
      var account := "";
      if m.qid in queueSenders { account := queueSenders[m.qid].account; }
      match m.status {
        case Sent =>
          if m.qid in queueSenders && m.queuedAs.Some? && m.queuedAs.value != m.qid {
            queueSenders := queueSenders[m.queuedAs.value := queueSenders[m.qid]];
          }
        case Bounced =>
        case Deferred =>
      }
      ev := Some(EventFor(line, DeliveryKind(m.status), m.qid, "", account, map["to" := m.to, "relay" := m.relay]));
    }

    method CountCall(now: Nanos)
      modifies this
      ensures View() == Tick(old(View()), now)
    {
      queueCallCnt := queueCallCnt + 1;
      if queueCallCnt >= PRUNE_EVERY {
        queueCallCnt := 0;
        PruneQueues(now);
      }
    }

    method PruneQueues(now: Nanos)
      modifies this`authedQueues, this`queueSenders
      ensures authedQueues == Since(old(authedQueues), now - QUEUE_TTL)
      ensures queueSenders == Since(old(queueSenders), now - SENDER_TTL)
    {
      authedQueues := DropOlder(authedQueues, now - QUEUE_TTL);
      queueSenders := DropOlder(queueSenders, now - SENDER_TTL);
    }

    /** One of the two pruning loops, over the entries in any order. */
    method DropOlder(m: map<string, Binding>, cutoff: Nanos) returns (kept: map<string, Binding>)
      ensures kept == Since(m, cutoff)
    {
      kept := m;
      var rest := m.Keys;
      while rest != {}
        invariant rest <= m.Keys
        invariant forall q :: q in kept <==> q in m && (q in rest || m[q].ts >= cutoff)
        invariant forall q <- kept :: kept[q] == m[q]
      {
        var q :| q in rest;
        if kept[q].ts < cutoff { kept := kept - {q}; }
        rest := rest - {q};
      }
    }
  }

  // ---- what the events carry ----

  /** The user name stands behind the first key, up to the first blank, comma or semicolon behind it,
      or to the end. */
  lemma UsernameExact(before: string, name: string, rest: string)
    requires forall i: nat :: i < |before| ==> !OccursAt(before + USERNAME_KEY + name + rest, USERNAME_KEY, i)
    requires ' ' !in name && ',' !in name && ';' !in name
    requires rest != "" ==> rest[0] == ' ' || rest[0] == ',' || rest[0] == ';'
    ensures SaslUsername(before + USERNAME_KEY + name + rest)
         == name
  {
    var reason := before + USERNAME_KEY + name + rest;
    assert before + USERNAME_KEY + (name + rest) == reason;
    KeyAt(before, name + rest);
    hide Find, OccursAt, NameLength;
    NameEnds(name, rest);
    assert reason[|before| + |USERNAME_KEY|..] == name + rest;
  }

  lemma KeyAt(before: string, tail: string)
    requires forall i: nat :: i < |before| ==> !OccursAt(before + USERNAME_KEY + tail, USERNAME_KEY, i)
    ensures Find(before + USERNAME_KEY + tail, USERNAME_KEY)
         == Some(|before|)
  {
    hide FindFrom;
    var reason := before + USERNAME_KEY + tail;
    assert OccursAt(reason, USERNAME_KEY, |before|);
  }

  lemma {:induction false} NameEnds(name: string, rest: string)
    requires forall c <- name :: !EndsName(c)
    requires rest != "" ==> EndsName(rest[0])
    ensures NameLength(name + rest) == |name| && (name + rest)[..|name|] == name
  {
    if name != "" {
      NameEnds(name[1..], rest);
      assert name + rest == [name[0]] + (name[1..] + rest);
      assert (name + rest)[1..] == name[1..] + rest;
    } else {
      assert name + rest == rest;
    }
  }

  lemma NoUsername(reason: string)
    requires forall i: nat :: !OccursAt(reason, USERNAME_KEY, i)
    ensures SaslUsername(reason) == ""
  {
  }

  /** What stands behind the last "@". */
  ghost predicate IsDomain(d: string, account: string) {
    '@' !in d && (if '@' in account then exists user: string :: account == user + "@" + d else d == "")
  }

  lemma DomainExact(account: string)
    ensures IsDomain(ExtractDomain(account), account)
  {
    var d := ExtractDomain(account);
    if '@' in account {
      var i :| 0 <= i < |account| && account[i] == '@' && account[i + 1..] == d;
      assert account == account[..i] + "@" + d;
    }
  }

  /** The kind of event of each kind of line. */
  ghost predicate KindFits(kind: Kind, m: Msg) {
    && (kind == AuthFailed <==> m.SaslFail?)
    && (kind == AuthSuccess <==> m.AuthOk?)
    && (kind == RecipientAdded <==> m.Rcpt?)
    && (kind == QueueAccepted <==> m.Qmgr?)
    && (kind == MessageSent <==> m.Delivery? && m.status == Sent)
    && (kind == MessageBounce <==> m.Delivery? && m.status == Bounced)
    && (kind == MessageDeferred <==> m.Delivery? && m.status == Deferred)
  }

  lemma KindFitsLine(s: State, line: Line)
    requires Emitted(s, line).Some?
    ensures KindFits(Emitted(s, line).value.kind, line.msg)
  {
    hide SaslUsername, Tick, ExtractDomain;
  }

  /** Time, process, text and domain of an event. */
  lemma EventFits(s: State, line: Line)
    requires Emitted(s, line).Some?
    ensures var ev := Emitted(s, line).value;
            && ev.ts == line.ts && ev.process == line.process && ev.raw == line.raw
            && ev.domain == ExtractDomain(ev.account)
  {
    hide SaslUsername, Tick, ExtractDomain, DeliveryKind;
  }

  /** Over every log: failures, successes and deliveries always give an event, other lines never, and
      recipients and acceptances only with an authentication pending; the event has the time, the
      process and the text of its line, and everything that the line says of queue ID, IP, account and
      the rest; its domain is what stands behind the last "@" of its account. */
  lemma EventsAreOfTheirLines(lines: seq<Line>, i: nat)
    requires i < |lines|
    ensures lines[i].msg.SaslFail? || lines[i].msg.AuthOk? || lines[i].msg.Delivery? ==> EventAt(lines, i).Some?
    ensures EventAt(lines, i).Some? ==>
              var ev, l := EventAt(lines, i).value, lines[i];
              && ev.ts == l.ts && ev.process == l.process && ev.raw == l.raw
              && KindFits(ev.kind, l.msg) && IsDomain(ev.domain, ev.account)
              && match l.msg
                 case SaslFail(ip, reason) =>
                   && ev.ip == ip && ev.account == SaslUsername(reason) && ev.queueId == ""
                   && ev.extra == if reason == "" then map[] else map["reason" := reason]
                 case AuthOk(q, ip, account) =>
                   ev.queueId == q && ev.ip == ip && ev.account == account && ev.extra == map[]
                 case Rcpt(q, ip) =>
                   ev.queueId == q && ev.ip == ip && ev.extra == map[] && PendingAuth(lines[..i], q).Some?
                 case Qmgr(q, from, size, nrcpt) =>
                   && ev.queueId == q && ev.ip == "" && PendingAuth(lines[..i], q).Some?
                   && ev.extra == map["size" := size, "nrcpt" := nrcpt, "from" := from]
                 case Delivery(q, to, relay, _, _) =>
                   ev.queueId == q && ev.ip == "" && ev.extra == map["to" := to, "relay" := relay]
                 case Other => false
  {
    MapsAreTraced(lines[..i]);
    if EventAt(lines, i).Some? {
      EventFits(Run(lines[..i]), lines[i]);
      KindFitsLine(Run(lines[..i]), lines[i]);
      DomainExact(EventAt(lines, i).value.account);
    }
    hide SaslUsername, IsDomain, KindFits, Tick, PendingAuth, Run;
  }

  // ---- attribution: soundness ----

  /** The authentication pending for a queue ID: the last one, unless qmgr took it since. */
  function PendingAuth(lines: seq<Line>, q: string): Option<Binding> {
    if lines == [] then None
    else
      var before, last := PendingAuth(lines[..|lines| - 1], q), lines[|lines| - 1];
      match last.msg
      case AuthOk(q', _, account) => if q' == q then Some(Binding(account, last.ts)) else before
      case Qmgr(q', _, _, _) => if q' == q then None else before
      case _ => before
  }

  /** The message under queue ID q was, at some point of the log, the one of this
      authentication: accepted by qmgr under q, or re-queued as q from such a message. */
  ghost predicate Traced(lines: seq<Line>, q: string, b: Binding) {
    lines != [] && (
      var init, last := lines[..|lines| - 1], lines[|lines| - 1];
      || Traced(init, q, b)
      || (last.msg.Qmgr? && last.msg.qid == q && PendingAuth(init, q) == Some(b))
      || (&& last.msg.Delivery? && last.msg.status == Sent && last.msg.queuedAs == Some(q)
          && Traced(init, last.msg.qid, b)))
  }

  /** At the root of every trace is a SASL success of that account at that time. */
  ghost predicate Authenticated(lines: seq<Line>, b: Binding) {
    exists i :: 0 <= i < |lines| && lines[i].msg.AuthOk? && lines[i].msg.account == b.account && lines[i].ts == b.ts
  }

  lemma {:induction false} PendingIsAuthenticated(lines: seq<Line>, q: string)
    ensures PendingAuth(lines, q).Some? ==> Authenticated(lines, PendingAuth(lines, q).value)
  {
    if lines != [] {
      var init := lines[..|lines| - 1];
      PendingIsAuthenticated(init, q);
      if PendingAuth(lines, q).Some? && PendingAuth(lines, q) == PendingAuth(init, q) {
        AuthenticatedGrows(lines, PendingAuth(init, q).value);
      }
    }
  }

  lemma AuthenticatedGrows(lines: seq<Line>, b: Binding)
    requires lines != [] && Authenticated(lines[..|lines| - 1], b)
    ensures Authenticated(lines, b)
  {
    var init := lines[..|lines| - 1];
    var i :| 0 <= i < |init| && init[i].msg.AuthOk? && init[i].msg.account == b.account && init[i].ts == b.ts;
    assert lines[i] == init[i];
  }

  lemma {:induction false} TracesAreAuthenticated(lines: seq<Line>, q: string, b: Binding)
    requires Traced(lines, q, b)
    ensures Authenticated(lines, b)
  {
    var init, last := lines[..|lines| - 1], lines[|lines| - 1];
    if Traced(init, q, b) {
      TracesAreAuthenticated(init, q, b);
    } else if last.msg.Qmgr? && last.msg.qid == q && PendingAuth(init, q) == Some(b) {
      PendingIsAuthenticated(init, q);
    } else {
      TracesAreAuthenticated(init, last.msg.qid, b);
    }
    AuthenticatedGrows(lines, b);
  }

  /** Whatever the log and its times: what the maps hold is a pending authentication, or a
      traced one. */
  lemma {:induction false} MapsAreTraced(lines: seq<Line>)
    ensures forall q <- Run(lines).authed :: PendingAuth(lines, q) == Some(Run(lines).authed[q])
    ensures forall q <- Run(lines).senders :: Traced(lines, q, Run(lines).senders[q])
  {
    if lines != [] {
      var init, last := lines[..|lines| - 1], lines[|lines| - 1];
      MapsAreTraced(init);
      var s := Run(init);
      forall q | q in Run(lines).senders ensures Traced(lines, q, Run(lines).senders[q]) {
        var b := Run(lines).senders[q];
        if last.msg.Qmgr? && last.msg.qid == q && q in s.authed {
          assert PendingAuth(init, q) == Some(b);
        } else if last.msg.Delivery? && last.msg.queuedAs == Some(q) && last.msg.qid in s.senders {
          assert b == s.senders[last.msg.qid] ==> Traced(init, last.msg.qid, b);
        }
      }
    }
  }

  /** Every account on a recipient, queue or delivery event was authenticated earlier in the
      log: for recipients and acceptances by the authentication pending for that very queue
      ID, for deliveries by one at the root of a chain of queue IDs that ends there. */
  lemma AttributionIsSound(lines: seq<Line>, i: nat)
    requires i < |lines| && EventAt(lines, i).Some?
    ensures var ev := EventAt(lines, i).value;
            && (ev.kind in {RecipientAdded, QueueAccepted} ==>
                  var b := PendingAuth(lines[..i], ev.queueId);
                  b.Some? && b.value.account == ev.account)
            && (ev.kind in {MessageSent, MessageBounce, MessageDeferred} && ev.account != "" ==>
                  exists b :: Traced(lines[..i], ev.queueId, b) && b.account == ev.account)
            && (ev.kind !in {AuthFailed, AuthSuccess} && ev.account != "" ==>
                  exists b :: Authenticated(lines[..i], b) && b.account == ev.account)
  {
    MapsAreTraced(lines[..i]);
    var s, ev := Run(lines[..i]), EventAt(lines, i).value;
    var q := ev.queueId;
    if ev.kind in {RecipientAdded, QueueAccepted} {
      PendingIsAuthenticated(lines[..i], q);
    } else if ev.kind in {MessageSent, MessageBounce, MessageDeferred} && ev.account != "" {
      var t := Tick(s, lines[i].ts);
      assert q in t.senders && t.senders[q] == s.senders[q];
      TracesAreAuthenticated(lines[..i], q, s.senders[q]);
    }
  }

  // ---- attribution: completeness ----

  predicate TakesAuth(m: Msg, q: string) { (m.AuthOk? || m.Qmgr?) && m.qid == q }

  /** After this log the message binds q anew: qmgr accepts an authentication that is pending
      for q, or another queue ID is re-queued as q. A qmgr line with nothing pending (a retry,
      a re-injected message) binds nothing. */
  predicate Rebinds(log: seq<Line>, m: Msg, q: string) {
    || (m.Qmgr? && m.qid == q && PendingAuth(log, q).Some?)
    || (m.Delivery? && m.status == Sent && m.queuedAs == Some(q) && m.qid != q)
  }

  /** Lines of the 30 minutes after the authentication that do not bind q anew. */
  ghost predicate Quiet(log: seq<Line>, lines: seq<Line>, q: string, b: Binding) {
    forall i :: 0 <= i < |lines| ==> !Rebinds(log + lines[..i], lines[i].msg, q) && lines[i].ts <= b.ts + SENDER_TTL
  }

  /** A pending authentication outlives any lines of the next 10 minutes that do not concern
      its queue ID, whatever is pruned. */
  lemma {:induction false} PendingSurvives(s: State, lines: seq<Line>, q: string, b: Binding)
    requires q in s.authed && s.authed[q] == b
    requires forall l <- lines :: !TakesAuth(l.msg, q) && l.ts <= b.ts + QUEUE_TTL
    ensures var end := RunFrom(s, lines); q in end.authed && end.authed[q] == b
  {
    if lines != [] {
      assert !TakesAuth(lines[|lines| - 1].msg, q) && lines[|lines| - 1].ts <= b.ts + QUEUE_TTL;
      PendingSurvives(s, lines[..|lines| - 1], q, b);
    }
  }

  /** A bound queue ID stays bound until it is bound anew, or 30 minutes have passed. */
  lemma {:induction false} SenderSurvives(log: seq<Line>, lines: seq<Line>, q: string, b: Binding)
    requires q in Run(log).senders && Run(log).senders[q] == b
    requires Quiet(log, lines, q, b)
    ensures q in Run(log + lines).senders && Run(log + lines).senders[q] == b
  {
    if lines == [] {
      assert log + lines == log;
    } else {
      var init, last := lines[..|lines| - 1], lines[|lines| - 1];
      QuietInit(log, lines, q, b);
      hide NextState, PendingAuth, Quiet;
      SenderSurvives(log, init, q, b);
      assert (log + lines)[..|log + lines| - 1] == log + init;
      MapsAreTraced(log + init);
      SenderKept(Run(log + init), last, q, b);
    }
  }

  lemma QuietInit(log: seq<Line>, lines: seq<Line>, q: string, b: Binding)
    requires Quiet(log, lines, q, b) && lines != []
    ensures var init, last := lines[..|lines| - 1], lines[|lines| - 1];
            Quiet(log, init, q, b) && !Rebinds(log + init, last.msg, q) && last.ts <= b.ts + SENDER_TTL
  {
    hide Rebinds;
    var init := lines[..|lines| - 1];
    assert forall i :: 0 <= i < |init| ==> init[..i] == lines[..i] && init[i] == lines[i];
  }

  lemma SenderKept(s: State, line: Line, q: string, b: Binding)
    requires q in s.senders && s.senders[q] == b && line.ts <= b.ts + SENDER_TTL
    requires line.msg.Qmgr? && line.msg.qid == q ==> q !in s.authed
    requires line.msg.Delivery? && line.msg.status == Sent && line.msg.queuedAs == Some(q) ==> line.msg.qid == q
    ensures q in NextState(s, line).senders && NextState(s, line).senders[q] == b
  {
  }

  lemma {:induction false} RunAppend(s: State, a: seq<Line>, b: seq<Line>)
    ensures RunFrom(s, a + b) == RunFrom(RunFrom(s, a), b)
  {
    if b == [] {
      assert a + b == a;
    } else {
      RunAppend(s, a, b[..|b| - 1]);
      assert (a + b)[..|a + b| - 1] == a + b[..|b| - 1];
    }
  }

  lemma RunOne(s: State, line: Line)
    ensures RunFrom(s, [line]) == NextState(s, line)
  {
    assert RunFrom(s, [line]) == NextState(RunFrom(s, [line][..0]), line);
  }

  /** One hop of a message: other lines, then its delivery, re-queued under the next ID. */
  datatype Hop = Hop(between: seq<Line>, delivery: Line)

  ghost predicate HopFrom(log: seq<Line>, h: Hop, q: string, b: Binding) {
    && Quiet(log, h.between, q, b)
    && h.delivery.ts <= b.ts + SENDER_TTL
    && h.delivery.msg.Delivery? && h.delivery.msg.qid == q
  }

  predicate Requeues(h: Hop) {
    && h.delivery.msg.Delivery? && h.delivery.msg.status == Sent
    && h.delivery.msg.queuedAs.Some? && h.delivery.msg.queuedAs.value != h.delivery.msg.qid
  }

  /** The hops, after this log, of one message that starts under queue ID q. */
  ghost predicate Hops(log: seq<Line>, hops: seq<Hop>, q: string, b: Binding)
    decreases |hops|
  {
    hops == [] || (
      var h := hops[0];
      && HopFrom(log, h, q, b)
      && (|hops| > 1 ==>
            Requeues(h) && Hops(log + (h.between + [h.delivery]), hops[1..], h.delivery.msg.queuedAs.value, b)))
  }

  function HopLines(hops: seq<Hop>): seq<Line> {
    if hops == [] then [] else hops[0].between + [hops[0].delivery] + HopLines(hops[1..])
  }

  /** Every delivery of a message, however often it was re-queued within 30 minutes of its
      authentication, carries the account, whatever the lines in between are, as long as they
      do not bind its queue ID anew, and whenever they prune. */
  lemma {:induction false} DeliveriesAttributed(log: seq<Line>, hops: seq<Hop>, q: string, b: Binding, k: nat)
    requires q in Run(log).senders && Run(log).senders[q] == b && Hops(log, hops, q, b) && k < |hops|
    ensures var ev := Emitted(Run(log + (HopLines(hops[..k]) + hops[k].between)), hops[k].delivery);
            ev.Some? && ev.value.account == b.account
    decreases |hops|
  {
    hide NextState, Emitted, Quiet, RunFrom;
    var h := hops[0];
    SenderSurvives(log, h.between, q, b);
    DeliveryAttributed(Run(log + h.between), h.delivery, b);
    if k == 0 {
      assert HopLines(hops[..0]) + h.between == h.between;
    } else {
      var next := log + (h.between + [h.delivery]);
      assert next == log + h.between + [h.delivery];
      RunAppend(EMPTY, log + h.between, [h.delivery]);
      RunOne(Run(log + h.between), h.delivery);
      DeliveriesAttributed(next, hops[1..], h.delivery.msg.queuedAs.value, b, k - 1);
      assert hops[..k][1..] == hops[1..][..k - 1] && hops[..k][0] == h;
      var rest := HopLines(hops[1..][..k - 1]) + hops[k].between;
      assert log + (HopLines(hops[..k]) + hops[k].between) == next + rest;
    }
  }

  /** One delivery of a bound message: attributed, and chained to the next queue ID. */
  lemma DeliveryAttributed(s: State, line: Line, b: Binding)
    requires line.msg.Delivery? && line.msg.qid in s.senders && s.senders[line.msg.qid] == b
    requires line.ts <= b.ts + SENDER_TTL
    ensures Emitted(s, line).Some? && Emitted(s, line).value.account == b.account
    ensures line.msg.status == Sent && line.msg.queuedAs.Some? && line.msg.queuedAs.value != line.msg.qid ==>
              var q := line.msg.queuedAs.value;
              q in NextState(s, line).senders && NextState(s, line).senders[q] == b
  {
  }

  /** Recipients: a RCPT line of the queue ID within 10 minutes of the authentication carries the
      account, whatever other lines come between, until qmgr takes the authentication. */
  lemma RecipientsAttributed(before: seq<Line>, auth: Line, pending: seq<Line>, rcpt: Line)
    requires auth.msg.AuthOk? && rcpt.msg.Rcpt? && rcpt.msg.qid == auth.msg.qid
    requires forall l <- pending :: l.ts <= auth.ts + QUEUE_TTL && !TakesAuth(l.msg, auth.msg.qid)
    ensures var ev := Emitted(Run(before + [auth] + pending), rcpt);
            ev.Some? && ev.value.kind == RecipientAdded && ev.value.account == auth.msg.account
  {
    RunAppend(EMPTY, before + [auth], pending);
    RunAppend(EMPTY, before, [auth]);
    RunOne(Run(before), auth);
    PendingSurvives(Run(before + [auth]), pending, auth.msg.qid, Binding(auth.msg.account, auth.ts));
  }

  /** Completeness, first half: if qmgr accepts the queue ID within 10 minutes of the
      authentication, and no other authentication or acceptance of that ID comes between, the
      acceptance carries the account and binds the queue ID to it. */
  lemma AcceptanceIsAttributed(before: seq<Line>, auth: Line, pending: seq<Line>, qmgr: Line)
    requires auth.msg.AuthOk? && qmgr.msg.Qmgr? && qmgr.msg.qid == auth.msg.qid
    requires forall l <- pending + [qmgr] :: l.ts <= auth.ts + QUEUE_TTL
    requires forall l <- pending :: !TakesAuth(l.msg, auth.msg.qid)
    ensures var s := Run(before + [auth] + pending);
            && Emitted(s, qmgr).Some? && Emitted(s, qmgr).value.account == auth.msg.account
            && qmgr.msg.qid in NextState(s, qmgr).senders
            && NextState(s, qmgr).senders[qmgr.msg.qid] == Binding(auth.msg.account, auth.ts)
  {
    RunAppend(EMPTY, before + [auth], pending);
    RunAppend(EMPTY, before, [auth]);
    RunOne(Run(before), auth);
    PendingSurvives(Run(before + [auth]), pending, auth.msg.qid, Binding(auth.msg.account, auth.ts));
  }

  /** Second half: from there on every delivery of the message within 30 minutes of the
      authentication carries the account, through any number of re-queueings. */
  lemma AttributionIsComplete(before: seq<Line>, auth: Line, pending: seq<Line>, qmgr: Line, hops: seq<Hop>, k: nat)
    requires auth.msg.AuthOk? && qmgr.msg.Qmgr? && qmgr.msg.qid == auth.msg.qid
    requires forall l <- pending + [qmgr] :: l.ts <= auth.ts + QUEUE_TTL
    requires forall l <- pending :: !TakesAuth(l.msg, auth.msg.qid)
    requires var accepted := before + [auth] + pending + [qmgr];
             Hops(accepted, hops, auth.msg.qid, Binding(auth.msg.account, auth.ts)) && k < |hops|
    ensures var accepted := before + [auth] + pending + [qmgr];
            var ev := Emitted(Run(accepted + (HopLines(hops[..k]) + hops[k].between)), hops[k].delivery);
            ev.Some? && ev.value.account == auth.msg.account
  {
    hide NextState, Emitted, Hops, HopLines;
    var log := before + [auth] + pending;
    AcceptanceIsAttributed(before, auth, pending, qmgr);
    RunAppend(EMPTY, log, [qmgr]);
    RunOne(Run(log), qmgr);
    DeliveriesAttributed(log + [qmgr], hops, auth.msg.qid, Binding(auth.msg.account, auth.ts), k);
  }

  // ---- the latest binding is found, whatever is pruned ----

  /** The same correlation when nothing is ever pruned: the latest binding of every queue ID. */
  function Unpruned(lines: seq<Line>): State {
    if lines == [] then EMPTY
    else
      var s := Unpruned(lines[..|lines| - 1]);
      NextState(s.(calls := 0), lines[|lines| - 1])
  }

  ghost predicate Chronological(lines: seq<Line>) {
    forall i, j :: 0 <= i < j < |lines| ==> lines[i].ts <= lines[j].ts
  }

  /** The queue IDs whose binding depends on when the maps were last pruned: qmgr accepted for
      them an authentication more than 10 minutes old, or they were re-queued from such an ID,
      and they were not bound in time since. */
  function Late(lines: seq<Line>): set<string> {
    if lines == [] then {}
    else LateNext(Late(lines[..|lines| - 1]), Unpruned(lines[..|lines| - 1]), lines[|lines| - 1])
  }

  function LateNext(late: set<string>, full: State, line: Line): set<string> {
    match line.msg
    case Qmgr(q, _, _, _) =>
      if q !in full.authed then late
      else if line.ts <= full.authed[q].ts + QUEUE_TTL then late - {q}
      else late + {q}
    case Delivery(q, _, _, status, queuedAs) =>
      if !(status == Sent && q in full.senders && queuedAs.Some? && queuedAs.value != q) then late
      else if q in late then late + {queuedAs.value}
      else late - {queuedAs.value}
    case _ => late
  }

  /** What is not yet due for pruning at `now` is the same with and without it. */
  ghost predicate SameWhileFresh(pruned: State, full: State, late: set<string>, now: Nanos) {
    && pruned.authed.Keys <= full.authed.Keys && pruned.senders.Keys <= full.senders.Keys
    && (forall q <- full.authed :: now <= full.authed[q].ts + QUEUE_TTL ==>
          q in pruned.authed && pruned.authed[q] == full.authed[q])
    && (forall q <- full.senders :: q !in late && now <= full.senders[q].ts + SENDER_TTL ==>
          q in pruned.senders && pruned.senders[q] == full.senders[q])
  }

  lemma SameWhileFreshStep(pruned: State, full: State, late: set<string>, line: Line, earlier: Nanos)
    requires SameWhileFresh(pruned, full, late, earlier) && earlier <= line.ts && full.calls == 0
    ensures SameWhileFresh(NextState(pruned, line), NextState(full, line), LateNext(late, full, line), line.ts)
  {
    hide SameWhileFresh, Tick, Chain;
    StillSame(pruned, full, late, earlier, line.ts);
    match line.msg
    case AuthOk(q, _, account) => SameAfterAuth(pruned, full, late, q, Binding(account, line.ts), line.ts);
    case Qmgr(q, _, _, _) =>
      SameAfterTake(pruned, full, late, q, line.ts);
      var a, b := pruned.(authed := pruned.authed - {q}), full.(authed := full.authed - {q});
      SameAfterTick(a, b, late, line.ts);
      if q !in full.authed {
        NothingPending(pruned, full, late, q, line.ts);
      } else if line.ts <= full.authed[q].ts + QUEUE_TTL {
        AcceptedIsPending(pruned, full, late, q, line.ts);
        SameAfterBind(Tick(a, line.ts), Tick(b, line.ts), late, q, full.authed[q], line.ts);
      } else {
        var next := NextState(pruned, line);
        SameAfterLateBind(Tick(a, line.ts), next, Tick(b, line.ts), late, q, full.authed[q], line.ts);
      }
    case Delivery(_, _, _, _, _) =>
      SameAfterTick(pruned, full, late, line.ts);
      TickKeepsFull(full, line.ts);
      SameAfterChain(Tick(pruned, line.ts), Tick(full, line.ts), late, line);
    case _ =>
  }

  lemma StillSame(pruned: State, full: State, late: set<string>, now: Nanos, later: Nanos)
    requires SameWhileFresh(pruned, full, late, now) && now <= later
    ensures SameWhileFresh(pruned, full, late, later)
  {
  }

  lemma SameAfterAuth(pruned: State, full: State, late: set<string>, q: string, b: Binding, now: Nanos)
    requires SameWhileFresh(pruned, full, late, now)
    ensures SameWhileFresh(pruned.(authed := pruned.authed[q := b]), full.(authed := full.authed[q := b]), late, now)
  {
  }

  lemma SameAfterTake(pruned: State, full: State, late: set<string>, q: string, now: Nanos)
    requires SameWhileFresh(pruned, full, late, now)
    ensures SameWhileFresh(pruned.(authed := pruned.authed - {q}), full.(authed := full.authed - {q}), late, now)
  {
  }

  lemma SameAfterTick(pruned: State, full: State, late: set<string>, now: Nanos)
    requires SameWhileFresh(pruned, full, late, now) && full.calls == 0
    ensures SameWhileFresh(Tick(pruned, now), Tick(full, now), late, now)
  {
  }

  lemma SameAfterBind(pruned: State, full: State, late: set<string>, q: string, b: Binding, now: Nanos)
    requires SameWhileFresh(pruned, full, late, now)
    ensures SameWhileFresh(pruned.(senders := pruned.senders[q := b]), full.(senders := full.senders[q := b]),
                           late - {q}, now)
  {
  }

  /** Whether or not the late authentication was still there. */
  lemma SameAfterLateBind(pruned: State, next: State, full: State, late: set<string>, q: string, b: Binding, now: Nanos)
    requires SameWhileFresh(pruned, full, late, now)
    requires next.authed == pruned.authed && next.calls == pruned.calls
    requires next.senders - {q} == pruned.senders - {q}
    ensures SameWhileFresh(next, full.(senders := full.senders[q := b]), late + {q}, now)
  {
    forall u | u != q
      ensures u in next.senders <==> u in pruned.senders
      ensures u in next.senders ==> next.senders[u] == pruned.senders[u]
    {
      assert u in next.senders <==> u in next.senders - {q};
      assert u in pruned.senders <==> u in pruned.senders - {q};
    }
  }

  lemma TickKeepsFull(full: State, now: Nanos)
    requires full.calls == 0
    ensures Tick(full, now).senders == full.senders && Tick(full, now).authed == full.authed
  {
  }

  lemma AcceptedIsPending(pruned: State, full: State, late: set<string>, q: string, now: Nanos)
    requires SameWhileFresh(pruned, full, late, now) && q in full.authed && now <= full.authed[q].ts + QUEUE_TTL
    ensures q in pruned.authed && pruned.authed[q] == full.authed[q]
  {
  }

  lemma NothingPending(pruned: State, full: State, late: set<string>, q: string, now: Nanos)
    requires SameWhileFresh(pruned, full, late, now) && q !in full.authed
    ensures q !in pruned.authed
  {
  }

  lemma SameAfterChain(pruned: State, full: State, late: set<string>, line: Line)
    requires SameWhileFresh(pruned, full, late, line.ts) && line.msg.Delivery?
    ensures SameWhileFresh(pruned.(senders := Chain(pruned.senders, line.msg)),
                           full.(senders := Chain(full.senders, line.msg)), LateNext(late, full, line), line.ts)
  {
  }

  lemma {:induction false} PruningHidesNothing(lines: seq<Line>)
    requires Chronological(lines)
    ensures lines != [] ==> SameWhileFresh(Run(lines), Unpruned(lines), Late(lines), lines[|lines| - 1].ts)
  {
    if lines != [] {
      hide SameWhileFresh, NextState, LateNext;
      var init, last := lines[..|lines| - 1], lines[|lines| - 1];
      PruningHidesNothing(init);
      if init == [] { NothingToHide(last.ts); }
      var s, late := Unpruned(init), Late(init);
      var earlier := if init == [] then last.ts else init[|init| - 1].ts;
      SameFullState(Run(init), s, late, earlier);
      SameWhileFreshStep(Run(init), s.(calls := 0), late, last, earlier);
      LateSameCalls(late, s, last);
    }
  }

  lemma LateSameCalls(late: set<string>, full: State, line: Line)
    ensures LateNext(late, full.(calls := 0), line)
         == LateNext(late, full, line)
  {
  }

  lemma NothingToHide(now: Nanos)
    ensures SameWhileFresh(Run([]), Unpruned([]), Late([]), now)
  {
  }

  lemma SameFullState(pruned: State, full: State, late: set<string>, now: Nanos)
    requires SameWhileFresh(pruned, full, late, now)
    ensures SameWhileFresh(pruned, full.(calls := 0), late, now)
  {
  }

  /** Over any log in order of time: a delivery under a queue ID whose latest binding is at most 30
      minutes old, and goes back to a timely acceptance, carries the account of that binding,
      whatever interleaves, retries or is pruned. */
  lemma LatestBindingFound(lines: seq<Line>, line: Line)
    requires Chronological(lines + [line]) && line.msg.Delivery?
    requires line.msg.qid in Unpruned(lines).senders && line.msg.qid !in Late(lines)
    requires line.ts <= Unpruned(lines).senders[line.msg.qid].ts + SENDER_TTL
    ensures var ev := Emitted(Run(lines), line);
            ev.Some? && ev.value.account == Unpruned(lines).senders[line.msg.qid].account
  {
    var all := lines + [line];
    assert all[|lines|] == line && forall i :: 0 <= i < |lines| ==> all[i] == lines[i];
    PruningHidesNothing(lines);
    hide Run, Unpruned, Late;
  }

  // ---- MAIL FROM has no influence ----

  /** Two lines that differ at most in the raw text and the MAIL FROM of a qmgr line. */
  predicate SameButFrom(a: Line, b: Line) {
    && a.ts == b.ts && a.process == b.process
    && (a.msg == b.msg || (a.msg.Qmgr? && b.msg.Qmgr? && a.msg.(from := b.msg.from) == b.msg))
  }

  predicate SameEventButFrom(a: Option<Event>, b: Option<Event>) {
    match (a, b)
    case (None, None) => true
    case (Some(x), Some(y)) => x.(extra := x.extra - {"from"}, raw := "") == y.(extra := y.extra - {"from"}, raw := "")
    case _ => false
  }

  lemma {:induction false} MailFromDoesNotMatter(xs: seq<Line>, ys: seq<Line>)
    requires |xs| == |ys| && forall i :: 0 <= i < |xs| ==> SameButFrom(xs[i], ys[i])
    ensures Run(xs) == Run(ys)
    ensures forall i :: 0 <= i < |xs| ==> SameEventButFrom(EventAt(xs, i), EventAt(ys, i))
  {
    if xs != [] {
      var n := |xs| - 1;
      MailFromDoesNotMatter(xs[..n], ys[..n]);
      forall i | 0 <= i < |xs| ensures SameEventButFrom(EventAt(xs, i), EventAt(ys, i)) {
        if i < n {
          assert xs[..n][..i] == xs[..i] && ys[..n][..i] == ys[..i];
          assert SameEventButFrom(EventAt(xs[..n], i), EventAt(ys[..n], i));
        } else {
          SameStepButFrom(Run(xs[..n]), xs[n], ys[n]);
        }
      }
      SameStepButFrom(Run(xs[..n]), xs[n], ys[n]);
    }
  }

  lemma SameStepButFrom(s: State, a: Line, b: Line)
    requires SameButFrom(a, b)
    ensures NextState(s, a) == NextState(s, b) && SameEventButFrom(Emitted(s, a), Emitted(s, b))
  {
  }

  // ---- what is forgotten ----

  /** The qmgr and delivery lines of a log. */
  function QueueLines(lines: seq<Line>): nat {
    if lines == [] then 0
    else
      var m := lines[|lines| - 1].msg;
      QueueLines(lines[..|lines| - 1]) + (if m.Qmgr? || m.Delivery? then 1 else 0)
  }

  lemma NextCalls(s: State, line: Line)
    ensures NextState(s, line).calls ==
            if !(line.msg.Qmgr? || line.msg.Delivery?) then s.calls else if s.calls + 1 >= 500 then 0 else s.calls + 1
  {
    hide Since, Chain;
  }

  lemma {:induction false} QueueLinesCounted(lines: seq<Line>)
    ensures Run(lines).calls == QueueLines(lines) % 500
  {
    if lines != [] {
      hide NextState;
      var init := lines[..|lines| - 1];
      QueueLinesCounted(init);
      NextCalls(Run(init), lines[|lines| - 1]);
      NextInRound(QueueLines(init));
    }
  }

  /** A line of the queue at which pruning is due. */
  lemma DueForgets(s: State, line: Line, q: string)
    requires s.calls + 1 == 500 && (line.msg.Qmgr? || line.msg.Delivery?)
    ensures var next := NextState(s, line);
            && (q in next.authed ==> next.authed[q].ts >= line.ts - 10 * MINUTE)
            && (q in next.senders && !(line.msg.Qmgr? && line.msg.qid == q) ==>
                  next.senders[q].ts >= line.ts - 30 * MINUTE)
  {
  }

  /** Behind every 500th of them no pending authentication is left that was older than 10 minutes by
      then, and no binding older than 30 minutes but the one that the line itself just made. */
  lemma PruneForgets(lines: seq<Line>, q: string)
    requires lines != [] && QueueLines(lines) > QueueLines(lines[..|lines| - 1]) && QueueLines(lines) % 500 == 0
    ensures var s, last := Run(lines), lines[|lines| - 1];
            && (q in s.authed ==> s.authed[q].ts >= last.ts - 10 * MINUTE)
            && (q in s.senders && !(last.msg.Qmgr? && last.msg.qid == q) ==> s.senders[q].ts >= last.ts - 30 * MINUTE)
  {
    var init, last := lines[..|lines| - 1], lines[|lines| - 1];
    QueueLineNext(lines);
    hide *;
    QueueLinesCounted(init);
    NextInRound(QueueLines(init));
    DueForgets(Run(init), last, q);
  }

  lemma QueueLineNext(lines: seq<Line>)
    requires lines != [] && QueueLines(lines) > QueueLines(lines[..|lines| - 1])
    ensures var init, last := lines[..|lines| - 1], lines[|lines| - 1];
            && QueueLines(lines) == QueueLines(init) + 1 && (last.msg.Qmgr? || last.msg.Delivery?)
            && Run(lines) == NextState(Run(init), last)
  {
    hide NextState;
  }
}
